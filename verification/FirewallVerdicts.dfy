/**
 What a packet's verdict depends on: which field of the packet each field of a rule speaks about, and
 how the statistics follow the verdicts over whole runs.
 */
module FirewallVerdicts {
  import opened Machine
  import opened Firewall
  import opened FirewallEdits

  // ----- single fields

  /** Rules can only tell the two packets apart by fields that no enabled rule names. */
  ghost predicate SameWhereNamed(rules: seq<Rule>, p: Packet, q: Packet) {
    forall i :: 0 <= i < |rules| && rules[i].enabled ==>
      && (rules[i].protocol != AnyProtocol ==> p.protocol == q.protocol)
      && (rules[i].direction != Both ==> p.direction == q.direction)
      && (rules[i].srcIp != 0 ==> p.srcIp == q.srcIp)
      && (rules[i].dstIp != 0 ==> p.dstIp == q.dstIp)
      && (rules[i].srcPort != 0 ==> p.srcPort == q.srcPort)
      && (rules[i].dstPort != 0 ==> p.dstPort == q.dstPort)
  }

  /** One of the six fields of the rule has a value, and the packet another one there. */
  predicate Differs(r: Rule, p: Packet) {
    || (r.protocol != AnyProtocol && p.protocol != r.protocol)
    || (r.direction != Both && p.direction != r.direction)
    || (r.srcIp != 0 && p.srcIp != r.srcIp)
    || (r.dstIp != 0 && p.dstIp != r.dstIp)
    || (r.srcPort != 0 && p.srcPort != r.srcPort)
    || (r.dstPort != 0 && p.dstPort != r.dstPort)
  }

  lemma SameFirstMatch(rules: seq<Rule>, p: Packet, q: Packet)
    requires forall i :: 0 <= i < |rules| ==> Applies(rules[i], p) == Applies(rules[i], q)
    ensures FirstMatch(rules, p) == FirstMatch(rules, q)
  {
    hide Applies;
  }

  /** Taking out a rule that does not apply moves the first match with its rule. */
  lemma SkippedMatch(rules: seq<Rule>, j: nat, p: Packet)
    requires j < |rules| && !Applies(rules[j], p)
    ensures var m, n := FirstMatch(rules, p), FirstMatch(DeleteAt(rules, j), p);
            (m == -1 <==> n == -1) && (m != -1 ==> rules[m] == DeleteAt(rules, j)[n])
  {
    hide Applies;
    var a, b := rules[..j], rules[j + 1..];
    assert rules == (a + [rules[j]]) + b;
    MatchOfParts(a + [rules[j]], b, p);
    MatchOfParts(a, [rules[j]], p);
    MatchOfParts(a, b, p);
  }

  /** Changing a packet in fields that no enabled rule names changes no verdict. */
  lemma UnnamedFieldsIrrelevant(s: FwState, p: Packet, q: Packet)
    requires SameWhereNamed(s.rules, p, q)
    ensures CheckPacket(s, p).1 == CheckPacket(s, q).1
  {
    forall i | 0 <= i < |s.rules|
      ensures Applies(s.rules[i], p) == Applies(s.rules[i], q)
    {
    }
    SameFirstMatch(s.rules, p, q);
  }

  /** A rule that names another value in any one field leaves the verdict as it is without the rule. */
  lemma DifferingRuleIgnored(s: FwState, j: nat, p: Packet)
    requires j < |s.rules| && Differs(s.rules[j], p)
    ensures CheckPacket(s, p) == (CheckPacket(s.(rules := DeleteAt(s.rules, j)), p).0.(rules := s.rules),
                                  CheckPacket(s.(rules := DeleteAt(s.rules, j)), p).1)
  {
    hide FirstMatch;
    SkippedMatch(s.rules, j, p);
  }

  /** A disabled rule does too. */
  lemma DisabledRuleIgnored(s: FwState, j: nat, p: Packet)
    requires j < |s.rules| && !s.rules[j].enabled
    ensures CheckPacket(s, p).1 == CheckPacket(s.(rules := DeleteAt(s.rules, j)), p).1
  {
    hide FirstMatch;
    SkippedMatch(s.rules, j, p);
  }

  /**
   An enabled rule at the head of the table decides every packet that differs from it in no field: allow passes it
   and counts it as allowed; deny blocks it, counts it as blocked and records where it came from.
   */
  lemma FirstRuleDecides(s: FwState, p: Packet)
    requires s.on && s.rules != [] && s.rules[0].enabled && !Differs(s.rules[0], p)
    ensures var st := s.stats.(total := Add32(s.stats.total, 1));
            CheckPacket(s, p) ==
            if s.rules[0].action == Allow then (s.(stats := st.(allowed := Add32(st.allowed, 1))), true)
            else (s.(stats := st.(blocked := Add32(st.blocked, 1), lastBlockedIp := p.srcIp)), false)
  {
    assert Applies(s.rules[0], p);
  }

  /** An empty table blocks everything and records no address; a disabled firewall passes everything uncounted. */
  lemma DefaultVerdicts(s: FwState, p: Packet)
    ensures s.on && s.rules == [] ==>
              CheckPacket(s, p) ==
              (s.(stats := s.stats.(total := Add32(s.stats.total, 1), blocked := Add32(s.stats.blocked, 1))), false)
    ensures !s.on ==> CheckPacket(s, p) == (s, true)
  {
  }

  // ----- the statistics over whole runs

  /** Whether the last operation checks a packet while the firewall is enabled. */
  predicate ChecksLast(ops: seq<Op>)
    requires ops != []
  {
    ops[|ops| - 1].CheckOp? && Run(ops[..|ops| - 1]).on
  }

  /** The verdict on that packet. */
  predicate PassesLast(ops: seq<Op>)
    requires ops != [] && ChecksLast(ops)
  {
    CheckPacket(Run(ops[..|ops| - 1]), ops[|ops| - 1].p).1
  }

  /** How many packets of the run were checked by an enabled firewall with this verdict. */
  ghost function Verdicts(ops: seq<Op>, pass: bool): nat {
    if ops == [] then 0
    else Verdicts(ops[..|ops| - 1], pass) + (if ChecksLast(ops) && PassesLast(ops) == pass then 1 else 0)
  }

  /** Some enabled rule agrees with the packet in every field it names. */
  ghost predicate Named(rules: seq<Rule>, p: Packet) {
    exists i :: 0 <= i < |rules| && rules[i].enabled && !Differs(rules[i], p)
  }

  /** Where the last packet that a rule blocked came from, or 0. */
  ghost function LastDenied(ops: seq<Op>): uint32 {
    if ops == [] then 0
    else
      var n := |ops| - 1;
      if ChecksLast(ops) && !PassesLast(ops) && Named(Run(ops[..n]).rules, ops[n].p) then ops[n].p.srcIp
      else LastDenied(ops[..n])
  }

  lemma CheckCounts(s: FwState, p: Packet)
    ensures var (t, pass) := CheckPacket(s, p);
            && t.rules == s.rules && t.nextId == s.nextId && t.on == s.on
            && (!s.on ==> t.stats == s.stats)
            && (s.on ==>
                  && t.stats.total == Add32(s.stats.total, 1)
                  && t.stats.allowed == (if pass then Add32(s.stats.allowed, 1) else s.stats.allowed)
                  && t.stats.blocked == (if pass then s.stats.blocked else Add32(s.stats.blocked, 1))
                  && t.stats.lastBlockedIp ==
                       (if !pass && Named(s.rules, p) then p.srcIp else s.stats.lastBlockedIp))
  {
    hide Add32;
    assert forall i :: 0 <= i < |s.rules| ==>
      (Applies(s.rules[i], p) <==> s.rules[i].enabled && !Differs(s.rules[i], p));
  }

  lemma OneMore(n: nat)
    ensures Add32(n % TWO_32, 1) == (n + 1) % TWO_32
  {
  }

  lemma KeepsStats(s: FwState, op: Op)
    requires !op.CheckOp?
    ensures Step(s, op).stats == s.stats
  {
  }

  lemma InitStats()
    ensures InitState().stats == Stats(0, 0, 0, 0)
  {
  }

  /**
   After every run of rule edits, checks and switchings on and off, the three counters are the numbers of packets
   passed, blocked and checked while enabled, modulo 2^32, and the address is that of the last packet a rule blocked.
   */
  lemma {:induction false} RunCounts(ops: seq<Op>)
    ensures var st := Run(ops).stats;
            && st.allowed == Verdicts(ops, true) % TWO_32 && st.blocked == Verdicts(ops, false) % TWO_32
            && st.total == (Verdicts(ops, true) + Verdicts(ops, false)) % TWO_32
            && st.lastBlockedIp == LastDenied(ops)
  {
    hide Add32, CheckPacket, InitState, Named, AddRule, Remove;
    if ops == [] {
      InitStats();
    } else {
      var n := |ops| - 1;
      var s := Run(ops[..n]);
      RunCounts(ops[..n]);
      if ops[n].CheckOp? {
        CheckCounts(s, ops[n].p);
        OneMore(Verdicts(ops[..n], true));
        OneMore(Verdicts(ops[..n], false));
        OneMore(Verdicts(ops[..n], true) + Verdicts(ops[..n], false));
      } else {
        KeepsStats(s, ops[n]);
      }
    }
  }

  /** After firewall_init exactly inbound TCP to the four service ports passes. */
  lemma DefaultPacket(p: Packet)
    ensures CheckPacket(InitState(), p).1 <==>
            p.protocol == Tcp && p.direction == Inbound && p.dstPort in {22, 80, 443, 8080}
  {
    hide Passes;
    DefaultPolicy(p);
  }

  // ----- adding and removing

  /** firewall_add_rule returns 0 iff the table is full, and removing the id it returns takes the rule back. */
  lemma AddThenRemove(s: FwState, r: Rule)
    requires IdOrder(s) && 1 <= s.nextId
    ensures var (t, id) := AddRule(s, r);
            && (id == 0 <==> |s.rules| >= MAX_RULES)
            && Remove(t.rules, id) == s.rules
  {
    var (t, id) := AddRule(s, r);
    if |s.rules| < MAX_RULES {
      assert t.rules[|s.rules|].id == id;
      assert IndexOf(t.rules, id) == |s.rules|;
    }
  }
}

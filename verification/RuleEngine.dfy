/** The packet rule engine of packet_level_fib_control.c: rules in a linked list kept in priority
    order, evaluated first match first, with match counters. */
module RuleEngine {
  import opened Bytes
  import opened RuleConditions

  class Rule {
    const priority: nat
    const action: nat
    const conds: Conditions
    var enabled: bool
    var matchCount: nat
    var lastMatch: nat
    var next: Rule?

    constructor (priority: nat, action: nat, conds: Conditions)
      ensures this.priority == priority && this.action == action && this.conds == conds
      ensures enabled && matchCount == 0 && next == null
    {
      this.priority := priority;
      this.action := action;
      this.conds := conds;
      this.enabled := true;
      this.matchCount := 0;
      this.next := null;
    }
  }

  // ---------------------------------------------------------------- the order of the rules

  /** The list with `r` after every rule of at least its priority. */
  function Inserted(s: seq<Rule>, r: Rule): (t: seq<Rule>) {
    if s == [] || s[0].priority < r.priority then [r] + s else [s[0]] + Inserted(s[1..], r)
  }

  /** The list after the rules of `added` came in one after the other. */
  function Built(added: seq<Rule>): (t: seq<Rule>)
    decreases |added|
  {
    if added == [] then [] else Inserted(Built(added[..|added| - 1]), added[|added| - 1])
  }

  lemma {:induction false} InsertedSame(s: seq<Rule>, r: Rule)
    ensures multiset(Inserted(s, r)) == multiset(s) + multiset{r}
  {
    if s != [] && s[0].priority >= r.priority {
      assert s == [s[0]] + s[1..];
      InsertedSame(s[1..], r);
    }
  }

  lemma BuiltSnoc(added: seq<Rule>, r: Rule)
    ensures Built(added + [r]) == Inserted(Built(added), r)
  {
  }

  predicate Sorted(s: seq<Rule>) {
    forall i, j | 0 <= i < j < |s| :: s[i].priority >= s[j].priority
  }

  /** The rules of one priority, in order. */
  function OfPriority(s: seq<Rule>, p: nat): seq<Rule> {
    if s == [] then []
    else if s[0].priority == p then [s[0]] + OfPriority(s[1..], p)
    else OfPriority(s[1..], p)
  }

  lemma {:induction false} InsertedSorted(s: seq<Rule>, r: Rule)
    requires Sorted(s)
    ensures Sorted(Inserted(s, r))
  {
    if s != [] && s[0].priority >= r.priority {
      InsertedSorted(s[1..], r);
      InsertedSame(s[1..], r);
      forall q <- Inserted(s[1..], r) ensures s[0].priority >= q.priority {
        assert q in multiset(s[1..]) + multiset{r};
      }
    }
  }

  lemma {:induction false} InsertedOfPriority(s: seq<Rule>, r: Rule, p: nat)
    requires Sorted(s)
    ensures OfPriority(Inserted(s, r), p) == OfPriority(s, p) + if r.priority == p then [r] else []
  {
    if s != [] && s[0].priority >= r.priority {
      InsertedOfPriority(s[1..], r, p);
    } else {
      LowerOnly(s, r.priority);
      assert ([r] + s)[1..] == s;
    }
  }

  lemma {:induction false} LowerOnly(s: seq<Rule>, p: nat)
    requires forall q <- s :: q.priority < p
    ensures OfPriority(s, p) == []
  {
    if s != [] {
      LowerOnly(s[1..], p);
    }
  }

  lemma {:induction false} OfPrioritySnoc(s: seq<Rule>, r: Rule, p: nat)
    ensures OfPriority(s + [r], p) == OfPriority(s, p) + if r.priority == p then [r] else []
  {
    if s == [] {
      assert s + [r] == [r];
    } else {
      OfPrioritySnoc(s[1..], r, p);
      assert (s + [r])[1..] == s[1..] + [r];
    }
  }

  /** The list is the added rules in stable order: sorted by priority, ties as they came. */
  lemma {:induction false} BuiltStable(added: seq<Rule>)
    ensures Sorted(Built(added)) && multiset(Built(added)) == multiset(added)
    ensures forall p: nat :: OfPriority(Built(added), p) == OfPriority(added, p)
    decreases |added|
  {
    if added != [] {
      var front, r := added[..|added| - 1], added[|added| - 1];
      BuiltStable(front);
      InsertedSorted(Built(front), r);
      InsertedSame(Built(front), r);
      assert added == front + [r];
      forall p: nat ensures OfPriority(Built(added), p) == OfPriority(added, p) {
        InsertedOfPriority(Built(front), r, p);
        OfPrioritySnoc(front, r, p);
      }
    }
  }

  // ---------------------------------------------------------------- which rule applies

  /** A rule applies to a packet when it is enabled and all its conditions hold. */
  ghost predicate Applies(r: Rule, on: set<Rule>, p: Packet, clock: Rule -> Clock)
  {
    r in on && Holds(r.conds, p, clock(r))
  }

  /** The first rule of the list that applies. */
  ghost function FirstMatch(s: seq<Rule>, on: set<Rule>, p: Packet, clock: Rule -> Clock): Option<Rule>
  {
    if s == [] then None
    else if Applies(s[0], on, p, clock) then Some(s[0])
    else FirstMatch(s[1..], on, p, clock)
  }

  /** Of all rules that apply, the one of highest priority, and of those the one added first. */
  ghost function Best(added: seq<Rule>, on: set<Rule>, p: Packet, clock: Rule -> Clock): Option<Rule>
    decreases |added|
  {
    if added == [] then None else
    var r := added[|added| - 1];
    var before := Best(added[..|added| - 1], on, p, clock);
    if Applies(r, on, p, clock) && (before.None? || before.value.priority < r.priority) then Some(r) else before
  }

  /** What Best means, rule by rule. */
  lemma {:induction false} BestWins(added: seq<Rule>, on: set<Rule>, p: Packet, clock: Rule -> Clock) returns (i: nat)
    ensures match Best(added, on, p, clock)
            case None => forall k | 0 <= k < |added| :: !Applies(added[k], on, p, clock)
            case Some(b) =>
              && i < |added| && added[i] == b && Applies(b, on, p, clock)
              && forall k | 0 <= k < |added| && Applies(added[k], on, p, clock) ::
                   added[k].priority < b.priority || (added[k].priority == b.priority && i <= k)
    decreases |added|
  {
    i := 0;
    if added != [] {
      var last := |added| - 1;
      i := BestWins(added[..last], on, p, clock);
      var before := Best(added[..last], on, p, clock);
      if Applies(added[last], on, p, clock) && (before.None? || before.value.priority < added[last].priority) {
        i := last;
      }
    }
  }

  lemma {:induction false} FirstMatchIn(s: seq<Rule>, on: set<Rule>, p: Packet, clock: Rule -> Clock)
    ensures var f := FirstMatch(s, on, p, clock); f.Some? ==> f.value in s
  {
    if s != [] {
      FirstMatchIn(s[1..], on, p, clock);
    }
  }

  lemma {:induction false} InsertedMatch(s: seq<Rule>, r: Rule, on: set<Rule>, p: Packet, clock: Rule -> Clock)
    requires Sorted(s)
    ensures var f := FirstMatch(s, on, p, clock);
            FirstMatch(Inserted(s, r), on, p, clock) ==
            if Applies(r, on, p, clock) && (f.None? || f.value.priority < r.priority) then Some(r) else f
  {
    FirstMatchIn(s, on, p, clock);
    if s != [] && s[0].priority >= r.priority {
      InsertedMatch(s[1..], r, on, p, clock);
    } else {
      assert ([r] + s)[1..] == s;
    }
  }

  /** The first match in the list is the best of the rules ever added. */
  lemma {:induction false} FirstMatchBest(added: seq<Rule>, on: set<Rule>, p: Packet, clock: Rule -> Clock)
    ensures FirstMatch(Built(added), on, p, clock) == Best(added, on, p, clock)
    decreases |added|
  {
    if added != [] {
      var front := added[..|added| - 1];
      FirstMatchBest(front, on, p, clock);
      BuiltStable(front);
      InsertedMatch(Built(front), added[|added| - 1], on, p, clock);
    }
  }

  /** `t` is `s` with `x` put in at position `i`. */
  ghost predicate PutAt<T>(s: seq<T>, t: seq<T>, i: nat, x: T) {
    && i <= |s| && |t| == |s| + 1
    && forall j {:trigger t[j]} | 0 <= j < |t| :: t[j] == if j < i then s[j] else if j == i then x else s[j - 1]
  }

  /** Where an insertion that stopped at position `i` puts the rule. */
  lemma {:induction false} InsertedAt(s: seq<Rule>, r: Rule, i: nat)
    requires i <= |s|
    requires forall j | 0 <= j < i :: s[j].priority >= r.priority
    requires i < |s| ==> s[i].priority < r.priority
    ensures PutAt(s, Inserted(s, r), i, r)
  {
    if i > 0 {
      InsertedAt(s[1..], r, i - 1);
    }
  }

  // ---------------------------------------------------------------- counters

  function Sum(c: seq<nat>): nat {
    if c == [] then 0 else c[0] + Sum(c[1..])
  }

  lemma {:induction false} SumPut(c: seq<nat>, d: seq<nat>, i: nat, x: nat)
    requires PutAt(c, d, i, x)
    ensures Sum(d) == Sum(c) + x
  {
    if i == 0 {
      assert d[1..] == c;
    } else {
      SumPut(c[1..], d[1..], i - 1, x);
    }
  }

  lemma {:induction false} SumBump(c: seq<nat>, d: seq<nat>, i: nat)
    requires |c| == |d| && i < |c|
    requires forall j | 0 <= j < |c| :: d[j] == if j == i then c[j] + 1 else c[j]
    ensures Sum(d) == Sum(c) + 1
  {
    if i == 0 {
      assert d[1..] == c[1..];
    } else {
      SumBump(c[1..], d[1..], i - 1);
    }
  }

  ghost function Counts(s: seq<Rule>): (c: seq<nat>)
    reads s`matchCount
    ensures |c| == |s| && forall i | 0 <= i < |s| :: c[i] == s[i].matchCount
  {
    if s == [] then [] else [s[0].matchCount] + Counts(s[1..])
  }

  lemma CountsPut(s: seq<Rule>, t: seq<Rule>, i: nat, r: Rule)
    requires PutAt(s, t, i, r)
    ensures Sum(Counts(t)) == Sum(Counts(s)) + r.matchCount
  {
    assert PutAt(Counts(s), Counts(t), i, r.matchCount);
    SumPut(Counts(s), Counts(t), i, r.matchCount);
  }

  // ---------------------------------------------------------------- the linked list

  /** `head` starts a list that visits exactly the rules of `s`, each once. */
  ghost predicate Linked(head: Rule?, s: seq<Rule>)
    reads s`next
  {
    && head == At(s, 0)
    && (forall i {:trigger s[i].next} | 0 <= i < |s| :: s[i].next == At(s, i + 1))
    && (forall i, j | 0 <= i < j < |s| :: s[i] != s[j])
  }

  lemma LinkedOnce(head: Rule?, s: seq<Rule>, i: nat)
    requires Linked(head, s) && i < |s|
    ensures forall j | 0 <= j < |s| && j != i :: s[j] != s[i]
  {
  }

  ghost function At(s: seq<Rule>, i: nat): Rule? {
    if i < |s| then s[i] else null
  }

  class Context {
    var rules: Rule?
    var ruleCount: nat
    const defaultAction: nat
    var totalPackets: nat
    var processedPackets: nat
    ghost var list: seq<Rule>     // the linked list
    ghost var added: seq<Rule>    // every rule added so far, in order
    ghost var brought: nat        // the matches that rules had when they were added

    ghost predicate Valid()
      reads this, list
    {
      && list == Built(added)
      && Linked(rules, list)
      && ruleCount == |added|
      && Sum(Counts(list)) == brought + processedPackets
      && processedPackets <= totalPackets
    }

    ghost function Enabled(): set<Rule>
      reads this`list, list`enabled
    {
      set r | r in list && r.enabled
    }

    constructor (defaultAction: nat)
      ensures Valid() && added == [] && brought == 0 && totalPackets == 0 && this.defaultAction == defaultAction
    {
      rules := null;
      ruleCount := 0;
      this.defaultAction := defaultAction;
      totalPackets := 0;
      processedPackets := 0;
      list := [];
      added := [];
      brought := 0;
    }

    /** Links a rule in behind every rule of at least its priority. */
    method Link(rule: Rule) returns (ghost i: nat)
      requires Linked(rules, list) && rule !in list
      modifies this`rules, rule`next, list`next
      ensures Linked(rules, Inserted(list, rule))
      ensures PutAt(list, Inserted(list, rule), i, rule)
    {
      hide Inserted;
      ghost var s := list;
      var current := rules;
      var prev: Rule? := null;
      i := 0;
      while current != null && current.priority >= rule.priority
        invariant 0 <= i <= |s| && current == At(s, i) && prev == if i == 0 then null else s[i - 1]
        invariant forall j | 0 <= j < i :: s[j].priority >= rule.priority
        decreases |s| - i
      {
        prev := current;
        current := current.next;
        i := i + 1;
      }
      InsertedAt(s, rule, i);
      ghost var t := Inserted(s, rule);
      rule.next := current;
      if prev != null {
        prev.next := rule;
      } else {
        rules := rule;
      }
      forall j | 0 <= j < |t| ensures t[j].next == At(t, j + 1) {
        if j > i {
          assert s[j - 1].next == At(s, j);
        } else if j < i {
          assert t[j] == s[j] && t[j + 1] == if j + 1 < i then s[j + 1] else rule;
        }
      }
      assert forall j, k | 0 <= j < k < |t| :: t[j] != t[k];
    }

    /** Adds a rule; a null rule is refused. */
    method RuleAdd(rule: Rule?) returns (r: int)
      requires Valid()
      requires rule != null ==> rule !in list
      modifies this`rules, this`ruleCount, this`list, this`added, this`brought, rule, list`next
      ensures Valid()
      ensures if rule == null then r == -1 && added == old(added) && brought == old(brought)
              else && r == 0 && added == old(added) + [rule] && brought == old(brought) + rule.matchCount
                   && rule.matchCount == old(rule.matchCount) && rule.enabled == old(rule.enabled)
    {
      hide Linked, Inserted, Sum, Built, PutAt, Counts;
      if rule == null {
        return -1;
      }
      var newRule: Rule := rule;
      BuiltSnoc(added, newRule);
      ghost var i := Link(newRule);
      CountsPut(list, Inserted(list, newRule), i, newRule);
      ruleCount := ruleCount + 1;
      list, added := Inserted(list, newRule), added + [newRule];
      brought := brought + newRule.matchCount;
      r := 0;
    }

    /** The first match in the list is the best of the rules added. */
    lemma BestIsFirst(packet: Packet, clock: Rule -> Clock)
      requires Valid()
      ensures FirstMatch(list, Enabled(), packet, clock) == Best(added, Enabled(), packet, clock)
    {
      FirstMatchBest(added, Enabled(), packet, clock);
    }

    /** Walks the list to the first rule that applies. */
    method FirstRule(packet: Packet, clock: Rule -> Clock) returns (rule: Rule?)
      requires Linked(rules, list)
      ensures match FirstMatch(list, Enabled(), packet, clock)
              case None => rule == null
              case Some(r) => rule == r && r in list
    {
      ghost var on := Enabled();
      rule := rules;
      ghost var i := 0;
      while rule != null
        invariant 0 <= i <= |list| && rule == At(list, i)
        invariant FirstMatch(list, on, packet, clock) == FirstMatch(list[i..], on, packet, clock)
        decreases |list| - i
      {
        var applies := rule.enabled;
        if applies {
          applies := Check(rule.conds, packet, clock(rule));
        }
        if applies {
          return;
        }
        rule := rule.next;
        i := i + 1;
      }
    }

    /** What evaluation does to the packet: the action of the best rule that applies, else the
        default; and to the counters: only that rule's, and the number of processed packets. */
    method Evaluate(packet: Packet, clock: Rule -> Clock, now: nat) returns (action: nat)
      requires Valid()
      modifies this`totalPackets, this`processedPackets, list`matchCount, list`lastMatch
      ensures Valid() && totalPackets == old(totalPackets) + 1
      ensures match Best(added, old(Enabled()), packet, clock)
              case None =>
                && action == defaultAction && processedPackets == old(processedPackets)
                && Counts(list) == old(Counts(list))
              case Some(r) =>
                && r in list && action == r.action && processedPackets == old(processedPackets) + 1
                && r.matchCount == old(r.matchCount) + 1 && r.lastMatch == now
                && forall q <- list :: q != r ==> q.matchCount == old(q.matchCount) && q.lastMatch == old(q.lastMatch)
    {
      hide Best, FirstMatch, Built, Linked, Sum, Counts;
      BestIsFirst(packet, clock);
      totalPackets := totalPackets + 1;
      var rule := FirstRule(packet, clock);
      if rule == null {
        return defaultAction;
      }
      ghost var counts := Counts(list);
      ghost var i :| 0 <= i < |list| && list[i] == rule;
      LinkedOnce(rules, list, i);
      rule.matchCount := rule.matchCount + 1;
      rule.lastMatch := now;
      processedPackets := processedPackets + 1;
      SumBump(counts, Counts(list), i);
      return rule.action;
    }
  }
}

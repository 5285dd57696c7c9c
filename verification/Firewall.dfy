/** Firewall revisions (internal/firewall/manager.go): one chain is flushed and refilled rule by rule, and linked
    into DOCKER-USER. Commands may fail, with or without having taken effect. */
module Firewall {
  import opened Options

  /** The arguments of a rule: its matches and its target. */
  type Rule = seq<string>

  type Chains = map<string, seq<Rule>>

  datatype Ruleset = Ruleset(revision: int, rules: seq<Rule>)

  const CHAIN := "ROUTESTACK-FWD"
  const DOCKER_USER := "DOCKER-USER"
  const JUMP: Rule := ["-j", CHAIN]

  predicate StandsAt(text: string, word: string, i: nat) {
    i + |word| <= |text| && text[i..i + |word|] == word
  }

  /** strings.Contains */
  predicate Contains(text: string, word: string) { exists i | 0 <= i <= |text| :: StandsAt(text, word, i) }

  /** A listing of these rules contains the name of the chain, for whatever reason. */
  predicate Mentions(rules: seq<Rule>) {
    exists i | 0 <= i < |rules| :: exists j | 0 <= j < |rules[i]| :: Contains(rules[i][j], CHAIN)
  }

  /** The rules that are applied: those with arguments. */
  function Filled(rules: seq<Rule>): seq<Rule> {
    if rules == [] then [] else
    var last := rules[|rules| - 1];
    Filled(rules[..|rules| - 1]) + (if last == [] then [] else [last])
  }

  function RulesOf(cs: Chains, name: string): seq<Rule> { if name in cs then cs[name] else [] }

  /** Everything outside the two chains that a revision writes to. */
  function Elsewhere(cs: Chains): Chains { cs - {CHAIN, DOCKER_USER} }

  function Jumps(rules: seq<Rule>): nat {
    if rules == [] then 0 else (if rules[0] == JUMP then 1 else 0) + Jumps(rules[1..])
  }

  function WithoutJumps(rules: seq<Rule>): seq<Rule> {
    if rules == [] then [] else (if rules[0] == JUMP then [] else [rules[0]]) + WithoutJumps(rules[1..])
  }

  /** Iptables on the host. The trace records the chains after every command. */
  class Iptables {
    var chains: Chains
    ghost var trace: seq<Chains>
    /** On a reliable host a command fails only if its chain is missing, or for -N already there. */
    const reliable: bool

    constructor (chains: Chains, reliable: bool)
      ensures this.chains == chains && trace == [] && this.reliable == reliable
    {
      this.chains, this.reliable := chains, reliable;
      trace := [];
    }

    /** The outcome of a command whose effect would be after: it fails, or not, before or after the effect. */
    method Command(after: Chains) returns (ok: bool)
      modifies this
      ensures chains == old(chains) || chains == after
      ensures ok ==> chains == after
      ensures reliable ==> ok
      ensures trace == old(trace) + [chains]
    {
      var takesEffect, reported := *, *;
      ok := reliable || (takesEffect && reported);
      if ok || takesEffect { chains := after; }
      trace := trace + [chains];
    }

    /** iptables -N */
    method NewChain(name: string) returns (ok: bool)
      modifies this
      ensures chains == old(chains) || (name !in old(chains) && chains == old(chains)[name := []])
      ensures reliable ==> name in chains
      ensures trace == old(trace) + [chains]
    {
      if name in chains {
        trace := trace + [chains];
        ok := false;
      } else {
        ok := Command(chains[name := []]);
      }
    }

    /** iptables -L name; None if it fails, as it does for a missing chain. */
    method List(name: string) returns (rules: Option<seq<Rule>>)
      modifies this`trace
      ensures rules.Some? ==> name in chains && rules.value == chains[name]
      ensures reliable && name in chains ==> rules.Some?
      ensures trace == old(trace) + [chains]
    {
      var reported := *;
      trace := trace + [chains];
      rules := if name in chains && (reliable || reported) then Some(chains[name]) else None;
    }

    /** iptables -F, -A or -I: the rules of an existing chain are replaced by the given ones. */
    method Rewrite(name: string, rules: seq<Rule>) returns (ok: bool)
      modifies this
      ensures chains == old(chains) || (name in old(chains) && chains == old(chains)[name := rules])
      ensures ok ==> name in old(chains) && chains == old(chains)[name := rules]
      ensures reliable && name in old(chains) ==> ok
      ensures trace == old(trace) + [chains]
    {
      if name !in chains {
        trace := trace + [chains];
        ok := false;
      } else {
        ok := Command(chains[name := rules]);
      }
    }
  }

  datatype ApplyError = NegativeRevision | LinkFailed | FlushFailed | RuleFailed(i: nat)

  /** A state on the way from before to a revision: the chain still holds its old rules, or a prefix of the new
      ones; DOCKER-USER has kept its rules in order and gained at most one jump. */
  predicate OnTheWay(before: Chains, want: seq<Rule>, refilling: bool, cs: Chains) {
    && Elsewhere(cs) == Elsewhere(before)
    && (if refilling then CHAIN in cs && cs[CHAIN] <= want else RulesOf(cs, CHAIN) == RulesOf(before, CHAIN))
    && LinkedOnTop(RulesOf(before, DOCKER_USER), RulesOf(cs, DOCKER_USER))
  }

  /** At most one jump was put on top. */
  predicate LinkedOnTop(before: seq<Rule>, after: seq<Rule>) { after == before || after == [JUMP] + before }

  /** The part of a trace from start on is on the way to a revision, flushed from position flushAt on. */
  predicate TraceOnTheWay(before: Chains, want: seq<Rule>, trace: seq<Chains>, start: nat, flushAt: nat) {
    forall i | start <= i < |trace| :: OnTheWay(before, want, i >= flushAt, trace[i])
  }

  predicate Extends(longer: seq<Chains>, trace: seq<Chains>) {
    |trace| <= |longer| && longer[..|trace|] == trace
  }

  lemma TraceGrows(before: Chains, want: seq<Rule>, trace: seq<Chains>, start: nat, flushAt: nat, cs: Chains)
    requires start <= |trace| && TraceOnTheWay(before, want, trace, start, flushAt)
    requires OnTheWay(before, want, |trace| >= flushAt, cs)
    ensures TraceOnTheWay(before, want, trace + [cs], start, flushAt)
  {
    var longer := trace + [cs];
    forall i | start <= i < |longer| ensures OnTheWay(before, want, i >= flushAt, longer[i]) {
      if i < |trace| { assert longer[i] == trace[i]; }
    }
  }

  // Whether a replacement is atomic.

  /** Some state of the trace from start on has these rules in the chain. */
  ghost predicate Shows(trace: seq<Chains>, start: nat, rules: seq<Rule>) {
    exists i: nat | start <= i < |trace| :: CHAIN in trace[i] && trace[i][CHAIN] == rules
  }

  /** The trace shows the prefixes of want of the lengths lo to hi. */
  ghost predicate ShowsPrefixes(trace: seq<Chains>, start: nat, want: seq<Rule>, lo: nat, hi: nat)
    requires hi <= |want|
  {
    forall n: nat | lo <= n <= hi :: Shows(trace, start, want[..n])
  }

  /** At no moment from start on does the chain hold anything but its old rules or all the new ones. */
  predicate Atomic(before: Chains, want: seq<Rule>, trace: seq<Chains>, start: nat) {
    forall i | start <= i < |trace| ::
      RulesOf(trace[i], CHAIN) == RulesOf(before, CHAIN) || RulesOf(trace[i], CHAIN) == want
  }

  /** No rules to apply, or a single one for an empty chain. */
  predicate Trivial(before: Chains, want: seq<Rule>) {
    want == [] || (|want| == 1 && RulesOf(before, CHAIN) == [])
  }

  lemma ShowsLater(trace: seq<Chains>, more: seq<Chains>, from: nat, start: nat, want: seq<Rule>, lo: nat, hi: nat)
    requires hi <= |want| && ShowsPrefixes(trace, from, want, lo, hi) && Extends(more, trace) && start <= from
    ensures ShowsPrefixes(more, start, want, lo, hi)
  {
    forall n: nat | lo <= n <= hi ensures Shows(more, start, want[..n]) {
      assert Shows(trace, from, want[..n]);
      var i: nat :| from <= i < |trace| && CHAIN in trace[i] && trace[i][CHAIN] == want[..n];
      assert more[i] == trace[i];
    }
  }

  lemma ShowsNow(trace: seq<Chains>, start: nat)
    requires start < |trace| && CHAIN in trace[|trace| - 1]
    ensures Shows(trace, start, trace[|trace| - 1][CHAIN])
  {}

  lemma ShowsNothing(trace: seq<Chains>, start: nat, want: seq<Rule>)
    ensures ShowsPrefixes(trace, start, want, 1, 0)
  {}

  lemma ShowsOneMore(trace: seq<Chains>, cs: Chains, start: nat, want: seq<Rule>, n: nat)
    requires n < |want| && start <= |trace| && ShowsPrefixes(trace, start, want, 1, n)
    requires CHAIN in cs && cs[CHAIN] == want[..n + 1]
    ensures ShowsPrefixes(trace + [cs], start, want, 1, n + 1)
  {
    ShowsLater(trace, trace + [cs], start, start, want, 1, n);
    ShowsNow(trace + [cs], start);
  }

  lemma ShowsFlush(trace: seq<Chains>, start: nat, want: seq<Rule>)
    requires start < |trace| && CHAIN in trace[|trace| - 1] && trace[|trace| - 1][CHAIN] == []
    ensures ShowsPrefixes(trace, start, want, 0, 0)
  {
    ShowsNow(trace, start);
    assert want[..0] == [];
  }

  lemma ShowsJoin(trace: seq<Chains>, start: nat, want: seq<Rule>)
    requires ShowsPrefixes(trace, start, want, 0, 0) && ShowsPrefixes(trace, start, want, 1, |want|)
    ensures ShowsPrefixes(trace, start, want, 0, |want|)
  {
    hide Shows;
  }

  lemma AtomicExactlyWhenTrivial(before: Chains, want: seq<Rule>, trace: seq<Chains>, start: nat, flushAt: nat)
    requires TraceOnTheWay(before, want, trace, start, flushAt) && ShowsPrefixes(trace, start, want, 0, |want|)
    ensures Atomic(before, want, trace, start) <==> Trivial(before, want)
  {
    hide Elsewhere, LinkedOnTop;
    assert Shows(trace, start, want[..0]);
    if |want| >= 1 { assert Shows(trace, start, want[..1]); }
  }

  /** ensureChain. If the listing succeeds and mentions the chain nothing is inserted; otherwise a jump is. */
  method EnsureChain(fw: Iptables, ghost want: seq<Rule>) returns (ok: bool, ghost listed: bool)
    modifies fw
    ensures Extends(fw.trace, old(fw.trace))
    ensures TraceOnTheWay(old(fw.chains), want, fw.trace, |old(fw.trace)|, |fw.trace|)
    ensures OnTheWay(old(fw.chains), want, false, fw.chains)
    ensures listed ==> DOCKER_USER in old(fw.chains)
    ensures fw.reliable ==> ok && CHAIN in fw.chains && (DOCKER_USER in old(fw.chains) ==> listed)
    ensures var d := RulesOf(old(fw.chains), DOCKER_USER);
      && (listed && Mentions(d) ==> ok && RulesOf(fw.chains, DOCKER_USER) == d)
      && (ok && !(listed && Mentions(d)) ==> RulesOf(fw.chains, DOCKER_USER) == [JUMP] + d)
  {
    hide Mentions;
    ghost var before, d := fw.chains, RulesOf(fw.chains, DOCKER_USER);
    var _ := fw.NewChain(CHAIN);
    ghost var cs1 := fw.chains;
    assert OnTheWay(before, want, false, cs1) && RulesOf(cs1, DOCKER_USER) == d;
    var out := fw.List(DOCKER_USER);
    listed := out.Some?;
    ok := true;
    if out.None? {
      var _ := fw.NewChain(DOCKER_USER);
    } else if Mentions(out.value) {
      return;
    }
    ghost var cs2 := fw.chains;
    assert OnTheWay(before, want, false, cs2) && RulesOf(cs2, DOCKER_USER) == d;
    ok := fw.Rewrite(DOCKER_USER, [JUMP] + RulesOf(fw.chains, DOCKER_USER));
    assert OnTheWay(before, want, false, fw.chains);
  }

  /** The loop that appends the rules to the flushed chain. */
  method AppendRules(fw: Iptables, rules: seq<Rule>, ghost before: Chains, ghost start: nat, ghost flushAt: nat)
    returns (failed: Option<nat>)
    requires CHAIN in fw.chains && fw.chains[CHAIN] == [] && flushAt <= |fw.trace| && start <= |fw.trace|
    requires OnTheWay(before, Filled(rules), true, fw.chains)
    requires TraceOnTheWay(before, Filled(rules), fw.trace, start, flushAt)
    modifies fw
    ensures Extends(fw.trace, old(fw.trace))
    ensures TraceOnTheWay(before, Filled(rules), fw.trace, start, flushAt)
    ensures OnTheWay(before, Filled(rules), true, fw.chains)
    ensures RulesOf(fw.chains, DOCKER_USER) == RulesOf(old(fw.chains), DOCKER_USER)
    ensures failed.None? ==> fw.chains[CHAIN] == Filled(rules)
    ensures failed.None? ==> ShowsPrefixes(fw.trace, |old(fw.trace)|, Filled(rules), 1, |Filled(rules)|)
    ensures failed.Some? ==> failed.value < |rules| && rules[failed.value] != []
    ensures fw.reliable ==> failed.None?
  {
    hide TraceOnTheWay, ShowsPrefixes;
    ShowsNothing(fw.trace, |fw.trace|, Filled(rules));
    ghost var want, d := Filled(rules), RulesOf(fw.chains, DOCKER_USER);
    for i := 0 to |rules|
      invariant Extends(fw.trace, old(fw.trace))
      invariant TraceOnTheWay(before, want, fw.trace, start, flushAt)
      invariant OnTheWay(before, want, true, fw.chains) && RulesOf(fw.chains, DOCKER_USER) == d
      invariant CHAIN in fw.chains && fw.chains[CHAIN] == Filled(rules[..i]) <= want
      invariant ShowsPrefixes(fw.trace, |old(fw.trace)|, want, 1, |Filled(rules[..i])|)
    {
      assert rules[..i + 1][..i] == rules[..i];
      FilledPrefix(rules, i + 1);
      if rules[i] != [] {
        ghost var cs, trace := fw.chains, fw.trace;
        var applied := fw.Rewrite(CHAIN, fw.chains[CHAIN] + [rules[i]]);
        assert OnTheWay(before, want, true, fw.chains);
        TraceGrows(before, want, trace, start, flushAt, fw.chains);
        if !applied { return Some(i); }
        ghost var n := |cs[CHAIN]|;
        ShowsOneMore(trace, fw.chains, |old(fw.trace)|, want, n);
      }
    }
    assert rules[..|rules|] == rules;
    return None;
  }

  /** Manager.ApplyRevision. The trace of its commands is on the way throughout: up to position flushAt the
      chain holds its old rules, and from there on a prefix of the new ones, whatever fails. */
  method ApplyRevision(fw: Iptables, rs: Ruleset)
    returns (error: Option<ApplyError>, ghost listed: bool, ghost flushAt: nat)
    modifies fw
    ensures rs.revision < 0 <==> error == Some(NegativeRevision)
    ensures rs.revision < 0 ==> fw.chains == old(fw.chains) && fw.trace == old(fw.trace)
    ensures OthersKept(old(fw.chains), fw.chains)
    ensures error.None? && NoneEmpty(rs.rules) ==> HoldsExactly(fw.chains, rs.rules)
    ensures fw.reliable && rs.revision >= 0 ==> error.None? && (DOCKER_USER in old(fw.chains) ==> listed)
    ensures Applied(old(fw.chains), rs.rules, error, listed, fw.chains)
    ensures Extends(fw.trace, old(fw.trace))
    ensures TraceOnTheWay(old(fw.chains), Filled(rs.rules), fw.trace, |old(fw.trace)|, flushAt)
    ensures error.None? ==>
      var before, want := old(fw.chains), Filled(rs.rules);
      Atomic(before, want, fw.trace, |old(fw.trace)|) <==> Trivial(before, want)
  {
    hide Mentions, ShowsPrefixes, Atomic, Trivial, NoneEmpty, HoldsExactly, OthersKept;
    ElsewhereIsKept(fw.chains, fw.chains);
    ghost var before, start := fw.chains, |fw.trace|;
    ghost var want := Filled(rs.rules);
    listed, flushAt := false, start;
    if rs.revision < 0 {
      return Some(NegativeRevision), listed, flushAt;
    }
    var linked;
    linked, listed := EnsureChain(fw, want);
    flushAt := |fw.trace|;
    if !linked {
      ElsewhereIsKept(before, fw.chains);
      return Some(LinkFailed), listed, flushAt;
    }
    ghost var trace := fw.trace;
    var flushed := fw.Rewrite(CHAIN, []);
    if !flushed && RulesOf(fw.chains, CHAIN) == RulesOf(before, CHAIN) { flushAt := flushAt + 1; }
    assert OnTheWay(before, want, |trace| >= flushAt, fw.chains);
    assert TraceOnTheWay(before, want, trace, start, flushAt);
    TraceGrows(before, want, trace, start, flushAt, fw.chains);
    if !flushed {
      ElsewhereIsKept(before, fw.chains);
      return Some(FlushFailed), listed, flushAt;
    }
    ghost var flush := fw.trace;
    assert want[..0] == [];
    ShowsFlush(flush, start, want);
    var failed := AppendRules(fw, rs.rules, before, start, flushAt);
    ElsewhereIsKept(before, fw.chains);
    if failed.None? {
      if NoneEmpty(rs.rules) { FullRulesAreHeld(fw.chains, rs.rules); }
      ShowsLater(flush, fw.trace, start, start, want, 0, 0);
      ShowsLater(fw.trace, fw.trace, |flush|, start, want, 1, |want|);
      ShowsJoin(fw.trace, start, want);
      AtomicExactlyWhenTrivial(before, want, fw.trace, start, flushAt);
    }
    error := if failed.Some? then Some(RuleFailed(failed.value)) else None;
  }

  lemma {:induction false} FilledPrefix(rules: seq<Rule>, i: nat)
    requires i <= |rules|
    ensures Filled(rules[..i]) <= Filled(rules)
    decreases |rules|
  {
    if i < |rules| {
      assert rules[..|rules| - 1][..i] == rules[..i];
      FilledPrefix(rules[..|rules| - 1], i);
    } else {
      assert rules[..i] == rules;
    }
  }

  /** The rules to apply are taken one by one, in order, ... */
  lemma {:induction false} FilledInParts(a: seq<Rule>, b: seq<Rule>)
    ensures Filled(a + b) == Filled(a) + Filled(b)
    decreases |b|
  {
    if b == [] {
      assert a + b == a;
    } else {
      var n := |b| - 1;
      assert (a + b)[..|a + b| - 1] == a + b[..n];
      FilledInParts(a, b[..n]);
    }
  }

  /** ... and each is applied as it is, except one without arguments, which is dropped. */
  lemma FilledOneByOne(rule: Rule)
    ensures Filled([rule]) == if rule == [] then [] else [rule]
  {
    assert [rule][..0] == [];
  }

  predicate NoneEmpty(rules: seq<Rule>) { forall i | 0 <= i < |rules| :: rules[i] != [] }

  /** The chain holds these very rules. */
  predicate HoldsExactly(cs: Chains, rules: seq<Rule>) {
    "ROUTESTACK-FWD" in cs && cs["ROUTESTACK-FWD"] == rules
  }

  /** Every other chain is as it was. */
  predicate OthersKept(before: Chains, after: Chains) {
    forall name | name in before && name != "ROUTESTACK-FWD" && name != "DOCKER-USER" ::
      name in after && after[name] == before[name]
  }

  lemma ElsewhereIsKept(before: Chains, after: Chains)
    requires Elsewhere(after) == Elsewhere(before)
    ensures OthersKept(before, after)
  {
    forall name | name in before && name != CHAIN && name != DOCKER_USER
      ensures name in after && after[name] == before[name]
    {
      assert name in Elsewhere(before) && Elsewhere(before)[name] == before[name];
      assert name in Elsewhere(after);
    }
  }

  lemma FullRulesAreHeld(cs: Chains, rules: seq<Rule>)
    requires NoneEmpty(rules) && CHAIN in cs && cs[CHAIN] == Filled(rules)
    ensures HoldsExactly(cs, rules)
  {
    FullRulesAreKept(rules);
  }

  lemma {:induction false} FullRulesAreKept(rules: seq<Rule>)
    requires NoneEmpty(rules)
    ensures Filled(rules) == rules
  {
    if rules != [] {
      var n := |rules| - 1;
      FullRulesAreKept(rules[..n]);
      assert rules == rules[..n] + [rules[n]];
    }
  }

  /** The call got past linking the chain. */
  predicate PastLinking(error: Option<ApplyError>) {
    error != Some(NegativeRevision) && error != Some(LinkFailed)
  }

  /** What a call leaves behind, whether it succeeds or not. Only if the linking command is what failed is it
      open whether a jump was inserted. */
  predicate Applied(before: Chains, rules: seq<Rule>, error: Option<ApplyError>, listed: bool, after: Chains) {
    && Elsewhere(after) == Elsewhere(before)
    && (error.None? ==> CHAIN in after && after[CHAIN] == Filled(rules))
    && (RulesOf(after, CHAIN) == RulesOf(before, CHAIN) || RulesOf(after, CHAIN) <= Filled(rules))
    && (listed ==> DOCKER_USER in before)
    && var d := RulesOf(before, DOCKER_USER);
       if error == Some(NegativeRevision) || (listed && Mentions(d)) then RulesOf(after, DOCKER_USER) == d
       else if PastLinking(error) then RulesOf(after, DOCKER_USER) == [JUMP] + d
       else LinkedOnTop(d, RulesOf(after, DOCKER_USER))
  }

  // Any sequence of revisions.

  datatype Call = Call(rules: seq<Rule>, error: Option<ApplyError>, listed: bool)

  /** The states before and after every call of a history. */
  predicate History(states: seq<Chains>, calls: seq<Call>) {
    && |states| == |calls| + 1
    && forall i | 0 <= i < |calls| ::
         Applied(states[i], calls[i].rules, calls[i].error, calls[i].listed, states[i + 1])
  }

  /** Listing DOCKER-USER failed only while there was no such chain, or was not tried. */
  predicate ListingWorks(states: seq<Chains>, calls: seq<Call>)
    requires |states| == |calls| + 1
  {
    forall i | 0 <= i < |calls| && DOCKER_USER in states[i] && calls[i].error != Some(NegativeRevision) ::
      calls[i].listed
  }

  /** strings.Contains, and what it is asked. */
  lemma ContainsInFull(text: string, word: string)
    ensures Contains(text, word) <==> exists a: string, b: string :: text == a + word + b
  {
    if Contains(text, word) {
      var i :| 0 <= i <= |text| && StandsAt(text, word, i);
      assert text == text[..i] + word + text[i + |word|..];
    }
    if exists a: string, b: string :: text == a + word + b {
      var a: string, b: string :| text == a + word + b;
      assert StandsAt(text, word, |a|);
    }
  }

  lemma MentionsInFull(rules: seq<Rule>)
    ensures Mentions(rules) <==>
      exists i, j | 0 <= i < |rules| && 0 <= j < |rules[i]| :: Contains(rules[i][j], "ROUTESTACK-FWD")
  {}

  lemma JumpIsMentioned(rules: seq<Rule>, i: nat)
    requires i < |rules| && rules[i] == JUMP
    ensures Mentions(rules)
  {
    assert rules[i][1] == CHAIN;
    assert StandsAt(CHAIN, CHAIN, 0);
    assert Contains(rules[i][1], CHAIN);
  }

  lemma {:induction false} AJumpStandsSomewhere(rules: seq<Rule>)
    requires Jumps(rules) > 0
    ensures exists i | 0 <= i < |rules| :: rules[i] == JUMP
    decreases |rules|
  {
    if rules[0] != JUMP {
      AJumpStandsSomewhere(rules[1..]);
      var i :| 0 <= i < |rules[1..]| && rules[1..][i] == JUMP;
      assert rules[i + 1] == JUMP;
    }
  }

  lemma JumpsAreMentioned(d: seq<Rule>)
    ensures Jumps(d) > 0 ==> Mentions(d)
  {
    if Jumps(d) > 0 {
      AJumpStandsSomewhere(d);
      var i :| 0 <= i < |d| && d[i] == JUMP;
      JumpIsMentioned(d, i);
    }
  }

  lemma JumpsOnTop(d: seq<Rule>)
    ensures JUMP == ["-j", "ROUTESTACK-FWD"]
    ensures Jumps([JUMP] + d) == Jumps(d) + 1 && WithoutJumps([JUMP] + d) == WithoutJumps(d)
    ensures Mentions([JUMP] + d)
  {
    var top := [JUMP] + d;
    assert top[0] == JUMP && top[1..] == d;
    JumpIsMentioned(top, 0);
  }

  // The number of jumps.

  /** The call links the chain if it finds it unlinked. With doubt, so does a call whose linking command failed. */
  predicate Links(c: Call, doubt: bool) { PastLinking(c.error) || (doubt && c.error == Some(LinkFailed)) }

  /** The linking calls whose listing failed: each inserts a jump, linked or not. */
  function Unlisted(calls: seq<Call>, doubt: bool): nat {
    if calls == [] then 0 else
    var n, last := Unlisted(calls[..|calls| - 1], doubt), calls[|calls| - 1];
    if Links(last, doubt) && !last.listed then n + 1 else n
  }

  /** The first linking call had a working listing. */
  predicate FirstIsListed(calls: seq<Call>, doubt: bool) {
    calls != [] && if Links(calls[0], doubt) then calls[0].listed else FirstIsListed(calls[1..], doubt)
  }

  /** How many jumps a history inserts above the rules d, read off the calls alone. */
  function Insertions(d: seq<Rule>, calls: seq<Call>, doubt: bool): nat {
    Unlisted(calls, doubt) + if !Mentions(d) && FirstIsListed(calls, doubt) then 1 else 0
  }

  predicate AnyLinks(calls: seq<Call>, doubt: bool) { exists i | 0 <= i < |calls| :: Links(calls[i], doubt) }

  lemma {:induction false} FirstIsListedOneMore(front: seq<Call>, c: Call, doubt: bool)
    ensures FirstIsListed(front + [c], doubt)
       <==> if AnyLinks(front, doubt) then FirstIsListed(front, doubt) else Links(c, doubt) && c.listed
    decreases |front|
  {
    if front == [] {
      assert (front + [c])[1..] == [];
    } else {
      assert (front + [c])[1..] == front[1..] + [c];
      FirstIsListedOneMore(front[1..], c, doubt);
      AnyLinksFirst(front, doubt);
    }
  }

  lemma AnyLinksFirst(calls: seq<Call>, doubt: bool)
    requires calls != []
    ensures AnyLinks(calls, doubt) <==> Links(calls[0], doubt) || AnyLinks(calls[1..], doubt)
  {
    var rest := calls[1..];
    if AnyLinks(rest, doubt) {
      var i :| 0 <= i < |rest| && Links(rest[i], doubt);
      assert calls[i + 1] == rest[i];
    }
    if AnyLinks(calls, doubt) && !Links(calls[0], doubt) {
      var i :| 0 <= i < |calls| && Links(calls[i], doubt);
      assert rest[i - 1] == calls[i];
    }
  }

  /** The first linking call inserts a jump where nothing mentions the chain yet, listed or not. */
  lemma {:induction false} LinkingInserts(calls: seq<Call>, doubt: bool)
    ensures AnyLinks(calls, doubt) <==> Unlisted(calls, doubt) > 0 || FirstIsListed(calls, doubt)
    decreases |calls|
  {
    if calls != [] {
      var front, c := calls[..|calls| - 1], calls[|calls| - 1];
      assert calls == front + [c];
      LinkingInserts(front, doubt);
      FirstIsListedOneMore(front, c, doubt);
      AnyLinksOneMore(front, c, doubt);
    }
  }

  lemma AnyLinksOneMore(front: seq<Call>, c: Call, doubt: bool)
    ensures AnyLinks(front + [c], doubt) <==> AnyLinks(front, doubt) || Links(c, doubt)
  {
    var calls := front + [c];
    assert calls[|front|] == c;
    if AnyLinks(front, doubt) {
      var i :| 0 <= i < |front| && Links(front[i], doubt);
      assert calls[i] == front[i];
    }
    if AnyLinks(calls, doubt) && !Links(c, doubt) {
      var i :| 0 <= i < |calls| && Links(calls[i], doubt);
      assert front[i] == calls[i];
    }
  }

  /** One more call, given what DOCKER-USER mentions when it comes. */
  lemma InsertionsOneMore(d: seq<Rule>, front: seq<Call>, c: Call, doubt: bool)
    ensures Insertions(d, front + [c], doubt) ==
      if !Links(c, doubt) || (c.listed && (Mentions(d) || Insertions(d, front, doubt) > 0))
      then Insertions(d, front, doubt) else Insertions(d, front, doubt) + 1
  {
    assert (front + [c])[..|front|] == front;
    FirstIsListedOneMore(front, c, doubt);
    LinkingInserts(front, doubt);
  }

  /** d below k jumps. */
  function OnTop(k: nat, d: seq<Rule>): seq<Rule> { if k == 0 then d else [JUMP] + OnTop(k - 1, d) }

  lemma {:induction false} JumpsOnTopOf(k: nat, d: seq<Rule>)
    ensures Jumps(OnTop(k, d)) == Jumps(d) + k && WithoutJumps(OnTop(k, d)) == WithoutJumps(d)
    ensures Mentions(OnTop(k, d)) <==> Mentions(d) || k > 0
  {
    if k > 0 {
      JumpsOnTopOf(k - 1, d);
      JumpsOnTop(OnTop(k - 1, d));
    }
  }

  /** Whatever fails, a history only ever stacks jumps on top of DOCKER-USER, and leaves other chains alone. The
      number of jumps is read off the calls, up to those whose linking command failed. */
  lemma {:induction false} HistoryStacksJumps(states: seq<Chains>, calls: seq<Call>) returns (k: nat)
    requires History(states, calls)
    ensures Elsewhere(states[|calls|]) == Elsewhere(states[0])
    ensures RulesOf(states[|calls|], DOCKER_USER) == OnTop(k, RulesOf(states[0], DOCKER_USER))
    ensures Insertions(RulesOf(states[0], DOCKER_USER), calls, false) <= k
         <= Insertions(RulesOf(states[0], DOCKER_USER), calls, true)
    decreases |calls|
  {
    hide Mentions, Elsewhere, Filled, Insertions;
    k := 0;
    if calls == [] {
      NoInsertions(RulesOf(states[0], DOCKER_USER));
    } else {
      var n, d := |calls| - 1, RulesOf(states[0], DOCKER_USER);
      var c := calls[n];
      k := HistoryStacksJumps(states[..n + 1], calls[..n]);
      assert calls == calls[..n] + [c];
      InsertionsOneMore(d, calls[..n], c, false);
      InsertionsOneMore(d, calls[..n], c, true);
      JumpsOnTopOf(k, d);
      assert Applied(states[n], c.rules, c.error, c.listed, states[n + 1]);
      if RulesOf(states[n + 1], DOCKER_USER) != RulesOf(states[n], DOCKER_USER) { k := k + 1; }
    }
  }

  lemma NoInsertions(d: seq<Rule>)
    ensures Insertions(d, [], false) == Insertions(d, [], true) == 0
  {}

  /** After any sequence of revisions whose last one succeeds, with any faults before it, the chain holds that
      ruleset, DOCKER-USER keeps its other rules in order, and all other chains are as they were. DOCKER-USER is
      linked if it was, or if some listing failed, or unless a rule there mentioned the chain's name by accident;
      only a jump of a failed linking command may link it otherwise. */
  lemma LastRevisionIsInForce(states: seq<Chains>, calls: seq<Call>)
    requires History(states, calls) && calls != [] && calls[|calls| - 1].error.None?
    ensures var last := states[|calls|]; CHAIN in last && last[CHAIN] == Filled(calls[|calls| - 1].rules)
    ensures Elsewhere(states[|calls|]) == Elsewhere(states[0])
    ensures var d, last := RulesOf(states[0], DOCKER_USER), RulesOf(states[|calls|], DOCKER_USER);
      && WithoutJumps(last) == WithoutJumps(d)
      && Jumps(d) + Insertions(d, calls, false) <= Jumps(last) <= Jumps(d) + Insertions(d, calls, true)
      && (Jumps(d) > 0 || !Mentions(d) || Unlisted(calls, false) > 0 ==> Jumps(last) > 0)
      && (Jumps(last) > 0 ==> Jumps(d) > 0 || !Mentions(d) || Unlisted(calls, true) > 0)
  {
    hide Mentions, Elsewhere, Filled, WithoutJumps, Jumps;
    var n, d := |calls| - 1, RulesOf(states[0], DOCKER_USER);
    var k := HistoryStacksJumps(states, calls);
    JumpsOnTopOf(k, d);
    LinkingInserts(calls, false);
    assert Links(calls[n], false);
    assert Applied(states[n], calls[n].rules, calls[n].error, calls[n].listed, states[n + 1]);
  }

  /** If no linking command failed, the number of jumps is exact. In particular the chain is linked once if and
      only if it was, and no listing failed; or it was not, and either only the first linking call inserts a jump
      or, as something mentioned the chain by accident, only the one call whose listing failed. */
  lemma LinkedExactlyOnce(states: seq<Chains>, calls: seq<Call>)
    requires History(states, calls) && forall i | 0 <= i < |calls| :: calls[i].error != Some(LinkFailed)
    ensures var d, last := RulesOf(states[0], DOCKER_USER), RulesOf(states[|calls|], DOCKER_USER);
      && Jumps(last) == Jumps(d) + Insertions(d, calls, false)
      && (Jumps(last) > 0 <==> Jumps(d) > 0 || Insertions(d, calls, false) > 0)
      && (Jumps(last) == 1 <==>
            || (Jumps(d) == 1 && Unlisted(calls, false) == 0)
            || (Jumps(d) == 0 && !Mentions(d) && FirstIsListed(calls, false) && Unlisted(calls, false) == 0)
            || (Jumps(d) == 0 && !(!Mentions(d) && FirstIsListed(calls, false)) && Unlisted(calls, false) == 1))
  {
    hide Mentions, Elsewhere, Filled, WithoutJumps, Jumps;
    JumpsAreMentioned(RulesOf(states[0], DOCKER_USER));
    var k := HistoryStacksJumps(states, calls);
    JumpsOnTopOf(k, RulesOf(states[0], DOCKER_USER));
    NoDoubt(calls);
  }

  lemma {:induction false} NoDoubt(calls: seq<Call>)
    requires forall i | 0 <= i < |calls| :: calls[i].error != Some(LinkFailed)
    ensures Unlisted(calls, false) == Unlisted(calls, true) && FirstIsListed(calls, false) == FirstIsListed(calls, true)
    decreases |calls|
  {
    if calls != [] {
      var front, c := calls[..|calls| - 1], calls[|calls| - 1];
      NoDoubt(front);
      assert calls == front + [c];
      FirstIsListedOneMore(front, c, false);
      FirstIsListedOneMore(front, c, true);
      assert forall i | 0 <= i < |front| :: Links(front[i], false) == Links(front[i], true);
    }
  }

  // Histories in which listing works.

  /** As long as DOCKER-USER can be listed whenever it exists, it is as it was at the start or has one jump more
      on top, and that only if nothing in it mentioned the chain. */
  lemma {:induction false} LinkedAtMostOnce(states: seq<Chains>, calls: seq<Call>)
    requires History(states, calls) && ListingWorks(states, calls)
    ensures var d, now := RulesOf(states[0], DOCKER_USER), RulesOf(states[|calls|], DOCKER_USER);
      now == d || (!Mentions(d) && now == [JUMP] + d)
    decreases |calls|
  {
    if calls != [] {
      hide Mentions, Elsewhere, Filled;
      var n := |calls| - 1;
      LinkedAtMostOnce(states[..n + 1], calls[..n]);
      JumpsOnTop(RulesOf(states[0], DOCKER_USER));
      NothingMentions();
      assert Applied(states[n], calls[n].rules, calls[n].error, calls[n].listed, states[n + 1]);
    }
  }

  lemma NothingMentions()
    ensures !Mentions([])
  {}

  /** Then, after a success, the chain is linked exactly once if and only if it was linked once at the start, or
      was not linked and no rule of DOCKER-USER mentioned its name by accident. */
  lemma ListedChainIsLinkedOnce(states: seq<Chains>, calls: seq<Call>)
    requires History(states, calls) && ListingWorks(states, calls)
    requires calls != [] && calls[|calls| - 1].error.None?
    ensures var d, last := RulesOf(states[0], DOCKER_USER), RulesOf(states[|calls|], DOCKER_USER);
      && last == (if Mentions(d) then d else [JUMP] + d)
      && (Jumps(last) == 1 <==> Jumps(d) == 1 || (Jumps(d) == 0 && !Mentions(d)))
  {
    hide Mentions, Elsewhere, Filled;
    var d := RulesOf(states[0], DOCKER_USER);
    LinkedAtMostOnce(states, calls);
    LastRevisionIsInForce(states, calls);
    JumpsOnTop(d);
    JumpsAreMentioned(d);
  }

  /** A comment that mentions the chain passes for a link: the revision succeeds, and its chain is never reached. */
  lemma MentionPassesForALink(text: string, rules: seq<Rule>)
    requires Contains(text, CHAIN)
    ensures var d: seq<Rule> := [["-m", "comment", "--comment", text, "-j", "RETURN"]];
      && Applied(map[DOCKER_USER := d], rules, None, true, map[DOCKER_USER := d, CHAIN := Filled(rules)])
      && Jumps(d) == 0
  {
    var d: seq<Rule> := [["-m", "comment", "--comment", text, "-j", "RETURN"]];
    assert Contains(d[0][3], CHAIN);
    assert Mentions(d);
    assert d[0] != JUMP by { assert |d[0]| != |JUMP|; }
    var before, after := map[DOCKER_USER := d], map[DOCKER_USER := d, CHAIN := Filled(rules)];
    assert CHAIN != DOCKER_USER by { assert |CHAIN| != |DOCKER_USER|; }
    assert Elsewhere(after) == Elsewhere(before);
  }

  /** Without a working listing the link is inserted again by every revision that gets past it. */
  lemma FailedListingAddsAJump(before: Chains, rules: seq<Rule>, error: Option<ApplyError>, after: Chains)
    requires Applied(before, rules, error, false, after) && PastLinking(error)
    ensures Jumps(RulesOf(after, DOCKER_USER)) == Jumps(RulesOf(before, DOCKER_USER)) + 1
  {
    JumpsOnTop(RulesOf(before, DOCKER_USER));
  }
}

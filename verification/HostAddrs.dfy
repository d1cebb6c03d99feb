/** The host's own addresses: resolving them, deduplicating them, and telling subscribers how they change. */
module HostAddrs {
  import opened Common

  type Addr = string

  const MAX_ADDRESS_RESOLUTION: nat := 32

  // ---------- resolution ----------

  /** The addresses of s on one side of a test, in order. */
  function Filter(s: seq<Addr>, keep: Addr -> bool): seq<Addr> {
    if s == [] then []
    else
      var front, a := Filter(s[..|s| - 1], keep), s[|s| - 1];
      if keep(a) then front + [a] else front
  }

  lemma FilterSnoc(s: seq<Addr>, a: Addr, keep: Addr -> bool)
    ensures Filter(s + [a], keep) == if keep(a) then Filter(s, keep) + [a] else Filter(s, keep)
  {
    assert (s + [a])[..|s|] == s;
  }

  lemma {:induction false} FilterConcat(s: seq<Addr>, t: seq<Addr>, keep: Addr -> bool)
    ensures Filter(s + t, keep) == Filter(s, keep) + Filter(t, keep)
  {
    if t == [] {
      assert s + t == s;
    } else {
      var front, a := t[..|t| - 1], t[|t| - 1];
      assert s + t == (s + front) + [a] && t == front + [a];
      FilterConcat(s, front, keep);
      FilterSnoc(s + front, a, keep);
      FilterSnoc(front, a, keep);
    }
  }

  function Negate(p: Addr -> bool): Addr -> bool {
    (a: Addr) => !p(a)
  }

  lemma FilterCounts(s: seq<Addr>, t: seq<Addr>, keep: Addr -> bool)
    ensures multiset(Filter(s + t, keep)) == multiset(Filter(s, keep)) + multiset(Filter(t, keep))
    ensures |Filter(s + t, keep)| == |Filter(s, keep)| + |Filter(t, keep)|
  {
    FilterConcat(s, t, keep);
  }

  /** One answer of the resolver after parsing: the addresses of a peer, or nothing if it does not parse. */
  type Answer = Option<seq<Addr>>

  /** resolve gives what the resolver answers to its k-th question. */
  type Resolver = (nat, Addr) -> seq<Answer>

  /** The addresses of a list of answers that all parse. */
  function Addresses(answers: seq<Answer>): seq<Addr>
    requires None !in answers
  {
    if answers == [] then []
    else Addresses(answers[..|answers| - 1]) + answers[|answers| - 1].value
  }

  /**
   A resolution: the addresses listed, the questions put to the resolver, every address in its
   answers, how many addresses needed resolution by then, and whether an answer did not parse.
   */
  datatype Listing = Listing(addrs: seq<Addr>, asked: seq<Addr>, found: seq<Addr>, steps: nat, crashed: bool)

  function Then(l: Listing, m: Listing): Listing {
    Listing(l.addrs + m.addrs, l.asked + m.asked, l.found + m.found, m.steps, m.crashed)
  }

  /** What a stack of addresses resolves to, its last address first, when steps addresses needed resolution before. */
  function Resolution(stack: seq<Addr>, steps: nat, needs: Addr -> bool, resolve: Resolver): Listing
    decreases MAX_ADDRESS_RESOLUTION - Min(steps, MAX_ADDRESS_RESOLUTION), |stack|
  {
    if stack == [] then Listing([], [], [], steps, false)
    else
      var rest, addr := stack[..|stack| - 1], stack[|stack| - 1];
      if !needs(addr) then Then(Plain(addr), Resolution(rest, steps, needs, resolve))
      else if steps + 1 >= MAX_ADDRESS_RESOLUTION then Resolution(rest, steps + 1, needs, resolve)
      else if None in resolve(steps, addr) then Listing([], [addr], [], steps + 1, true)
      else
        var more := Addresses(resolve(steps, addr));
        Then(Asked(addr, more), Resolution(rest + more, steps + 1, needs, resolve))
  }

  function Plain(addr: Addr): Listing {
    Listing([addr], [], [], 0, false)
  }

  function Asked(addr: Addr, more: seq<Addr>): Listing {
    Listing([], [addr], more, 0, false)
  }

  lemma ThenTwice(k: Listing, l: Listing, m: Listing)
    ensures Then(k, Then(l, m)) == Then(Then(k, l), m)
  {
    assert k.addrs + (l.addrs + m.addrs) == (k.addrs + l.addrs) + m.addrs;
    assert k.asked + (l.asked + m.asked) == (k.asked + l.asked) + m.asked;
    assert k.found + (l.found + m.found) == (k.found + l.found) + m.found;
  }

  lemma NothingBefore(steps: nat, l: Listing)
    ensures Then(Listing([], [], [], steps, false), l) == l
  {
    assert [] + l.addrs == l.addrs && [] + l.asked == l.asked && [] + l.found == l.found;
  }

  /**
   The order of a resolution: of two lists of addresses the later one is resolved first, with
   all that it resolves to, and the earlier one goes on with the questions that are left.
   */
  lemma {:induction false} DepthFirst(s: seq<Addr>, t: seq<Addr>, steps: nat, needs: Addr -> bool, resolve: Resolver)
    ensures var l := Resolution(t, steps, needs, resolve);
            Resolution(s + t, steps, needs, resolve)
            == if l.crashed then l else Then(l, Resolution(s, l.steps, needs, resolve))
    decreases MAX_ADDRESS_RESOLUTION - Min(steps, MAX_ADDRESS_RESOLUTION), |t|
  {
    if t == [] {
      assert s + t == s;
      NothingBefore(steps, Resolution(s, steps, needs, resolve));
    } else {
      var rest, addr := t[..|t| - 1], t[|t| - 1];
      assert (s + t)[..|s + t| - 1] == s + rest && (s + t)[|s + t| - 1] == addr;
      if !needs(addr) {
        DepthFirst(s, rest, steps, needs, resolve);
        var l := Resolution(rest, steps, needs, resolve);
        ThenTwice(Plain(addr), l, Resolution(s, l.steps, needs, resolve));
      } else if steps + 1 >= MAX_ADDRESS_RESOLUTION {
        DepthFirst(s, rest, steps + 1, needs, resolve);
      } else if None !in resolve(steps, addr) {
        var more := Addresses(resolve(steps, addr));
        assert (s + rest) + more == s + (rest + more);
        DepthFirst(s, rest + more, steps + 1, needs, resolve);
        var l := Resolution(rest + more, steps + 1, needs, resolve);
        ThenTwice(Asked(addr, more), l, Resolution(s, l.steps, needs, resolve));
      }
    }
  }

  // what a resolution lists, asks and runs into

  /** Unless it crashed: the addresses listed are, as often as they came up, those given or found that need no resolution. */
  ghost predicate Balanced(stack: seq<Addr>, l: Listing, steps: nat, needs: Addr -> bool) {
    !l.crashed ==>
      && multiset(l.addrs) == multiset(Filter(stack + l.found, Negate(needs)))
      && l.steps - steps == |Filter(stack + l.found, needs)|
  }

  /** An address in front of what was already balanced. */
  lemma BalancedPlain(rest: seq<Addr>, addr: Addr, l: Listing, steps: nat, needs: Addr -> bool)
    requires Balanced(rest, l, steps, needs) && !needs(addr)
    ensures Balanced(rest + [addr], Then(Plain(addr), l), steps, needs)
  {
    AllCounts(rest, [addr], l.found, needs);
    AllCounts(rest, [addr], l.found, Negate(needs));
    FilterOne(addr, needs);
    assert [] + l.found == l.found;
  }

  lemma BalancedSkipped(rest: seq<Addr>, addr: Addr, l: Listing, steps: nat, needs: Addr -> bool)
    requires Balanced(rest, l, steps + 1, needs) && needs(addr)
    ensures Balanced(rest + [addr], l, steps, needs)
  {
    AllCounts(rest, [addr], l.found, needs);
    AllCounts(rest, [addr], l.found, Negate(needs));
    FilterOne(addr, needs);
  }

  lemma BalancedAsked(rest: seq<Addr>, addr: Addr, more: seq<Addr>, l: Listing, steps: nat, needs: Addr -> bool)
    requires Balanced(rest + more, l, steps + 1, needs) && needs(addr)
    ensures Balanced(rest + [addr], Then(Asked(addr, more), l), steps, needs)
  {
    var l', tail := Then(Asked(addr, more), l), more + l.found;
    assert l'.addrs == l.addrs && l'.found == tail;
    assert (rest + more) + l.found == rest + tail;
    AllCounts(rest, [addr], tail, needs);
    AllCounts(rest, [addr], tail, Negate(needs));
    FilterOne(addr, needs);
  }

  lemma FilterOne(addr: Addr, needs: Addr -> bool)
    ensures Filter([addr], needs) == if needs(addr) then [addr] else []
    ensures Filter([addr], Negate(needs)) == if needs(addr) then [] else [addr]
  {
    assert [addr] == [] + [addr];
    FilterSnoc([], addr, needs);
    FilterSnoc([], addr, Negate(needs));
  }

  /** Leaving one stretch of a list out of the count. */
  lemma AllCounts(a: seq<Addr>, b: seq<Addr>, c: seq<Addr>, keep: Addr -> bool)
    ensures multiset(Filter((a + b) + c, keep)) == multiset(Filter(b, keep)) + multiset(Filter(a + c, keep))
    ensures |Filter((a + b) + c, keep)| == |Filter(b, keep)| + |Filter(a + c, keep)|
  {
    FilterCounts(a + b, c, keep);
    FilterCounts(a, b, keep);
    FilterCounts(a, c, keep);
  }

  /** Whatever the resolver answers: what came up and needs no resolution is listed, and all that needs it is counted. */
  lemma {:induction false} ResolutionBalanced(stack: seq<Addr>, steps: nat, needs: Addr -> bool, resolve: Resolver)
    ensures Balanced(stack, Resolution(stack, steps, needs, resolve), steps, needs)
    decreases MAX_ADDRESS_RESOLUTION - Min(steps, MAX_ADDRESS_RESOLUTION), |stack|
  {
    if stack == [] {
      assert stack + [] == [];
    } else {
      var rest, addr := stack[..|stack| - 1], stack[|stack| - 1];
      assert stack == rest + [addr];
      if !needs(addr) {
        ResolutionBalanced(rest, steps, needs, resolve);
        BalancedPlain(rest, addr, Resolution(rest, steps, needs, resolve), steps, needs);
      } else if steps + 1 >= MAX_ADDRESS_RESOLUTION {
        ResolutionBalanced(rest, steps + 1, needs, resolve);
        BalancedSkipped(rest, addr, Resolution(rest, steps + 1, needs, resolve), steps, needs);
      } else if None !in resolve(steps, addr) {
        var more := Addresses(resolve(steps, addr));
        ResolutionBalanced(rest + more, steps + 1, needs, resolve);
        BalancedAsked(rest, addr, more, Resolution(rest + more, steps + 1, needs, resolve), steps, needs);
      }
    }
  }

  /** Every one of these questions, numbered from the given one on, was answered with addresses that parse. */
  predicate AllParsed(resolve: Resolver, asked: seq<Addr>, from: nat) {
    forall k :: 0 <= k < |asked| ==> !Unparsable(resolve, from + k, asked[k])
  }

  predicate Unparsable(resolve: Resolver, k: nat, a: Addr) {
    None in resolve(k, a)
  }

  lemma AllParsedCons(resolve: Resolver, a: Addr, asked: seq<Addr>, from: nat)
    ensures AllParsed(resolve, [a] + asked, from) <==> !Unparsable(resolve, from, a) && AllParsed(resolve, asked, from + 1)
  {
    var all := [a] + asked;
    assert all[0] == a;
    if AllParsed(resolve, all, from) {
      forall k | 0 <= k < |asked|
        ensures !Unparsable(resolve, from + 1 + k, asked[k])
      {
        assert all[k + 1] == asked[k];
        assert !Unparsable(resolve, from + (k + 1), all[k + 1]);
      }
    }
    if !Unparsable(resolve, from, a) && AllParsed(resolve, asked, from + 1) {
      forall k | 0 <= k < |all|
        ensures !Unparsable(resolve, from + k, all[k])
      {
        if k > 0 {
          assert !Unparsable(resolve, from + 1 + (k - 1), asked[k - 1]);
        }
      }
    }
  }

  /** A resolution asks as long as fewer than 31 questions were put, only about addresses that need it, and crashes exactly on an answer that does not parse. */
  lemma {:induction false} ResolutionAsks(stack: seq<Addr>, steps: nat, needs: Addr -> bool, resolve: Resolver)
    ensures var l := Resolution(stack, steps, needs, resolve);
            && Min(steps, MAX_ADDRESS_RESOLUTION - 1) + |l.asked| == Min(l.steps, MAX_ADDRESS_RESOLUTION - 1)
            && (l.crashed <==> !AllParsed(resolve, l.asked, steps))
            && (forall a :: a in l.addrs ==> !needs(a)) && (forall a :: a in l.asked ==> needs(a))
    decreases MAX_ADDRESS_RESOLUTION - Min(steps, MAX_ADDRESS_RESOLUTION), |stack|
  {
    if stack != [] {
      var rest, addr := stack[..|stack| - 1], stack[|stack| - 1];
      if !needs(addr) {
        ResolutionAsks(rest, steps, needs, resolve);
        var l := Resolution(rest, steps, needs, resolve);
        assert [] + l.asked == l.asked;
      } else if steps + 1 >= MAX_ADDRESS_RESOLUTION {
        ResolutionAsks(rest, steps + 1, needs, resolve);
        assert Resolution(rest, steps + 1, needs, resolve).asked == [];
      } else if None in resolve(steps, addr) {
        assert Unparsable(resolve, steps + 0, [addr][0]);
      } else {
        var more := Addresses(resolve(steps, addr));
        ResolutionAsks(rest + more, steps + 1, needs, resolve);
        AllParsedCons(resolve, addr, Resolution(rest + more, steps + 1, needs, resolve).asked, steps);
      }
    }
  }

  // every address of every answer

  /** How many addresses a list of answers holds. */
  function TotalLength(answers: seq<Answer>): nat
    requires None !in answers
  {
    if answers == [] then 0 else |answers[0].value| + TotalLength(answers[1..])
  }

  lemma {:induction false} TotalLengthSnoc(answers: seq<Answer>, more: seq<Addr>)
    requires None !in answers
    ensures TotalLength(answers + [Some(more)]) == TotalLength(answers) + |more|
  {
    if answers == [] {
      assert ([] + [Some(more)])[1..] == [];
    } else {
      assert (answers + [Some(more)])[1..] == answers[1..] + [Some(more)];
      TotalLengthSnoc(answers[1..], more);
    }
  }

  /** The addresses of the answers, each at its place: those of one answer behind those of the answers before it. */
  lemma {:induction false} AddressesAt(answers: seq<Answer>, j: nat, t: nat)
    requires None !in answers && j < |answers| && t < |answers[j].value|
    ensures |Addresses(answers)| == TotalLength(answers)
    ensures TotalLength(answers[..j]) + t < |Addresses(answers)|
    ensures Addresses(answers)[TotalLength(answers[..j]) + t] == answers[j].value[t]
  {
    var front, last := answers[..|answers| - 1], answers[|answers| - 1];
    AddressesLength(front);
    TotalLengthSnoc(front, last.value);
    assert answers == front + [last];
    if j < |front| {
      AddressesAt(front, j, t);
      assert front[..j] == answers[..j];
    } else {
      assert answers[..j] == front;
    }
  }

  lemma {:induction false} AddressesLength(answers: seq<Answer>)
    requires None !in answers
    ensures |Addresses(answers)| == TotalLength(answers)
  {
    if answers != [] {
      var front, last := answers[..|answers| - 1], answers[|answers| - 1];
      AddressesLength(front);
      TotalLengthSnoc(front, last.value);
      assert answers == front + [last];
    }
  }

  /** How many addresses the answers to the first k questions hold. */
  function FoundBefore(resolve: Resolver, asked: seq<Addr>, from: nat, k: nat): nat
    requires k <= |asked| && AllParsed(resolve, asked, from)
  {
    if k == 0 then 0
    else
      AllParsedFront(resolve, asked, from);
      TotalLength(resolve(from, asked[0])) + FoundBefore(resolve, asked[1..], from + 1, k - 1)
  }

  lemma AllParsedFront(resolve: Resolver, asked: seq<Addr>, from: nat)
    requires asked != [] && AllParsed(resolve, asked, from)
    ensures None !in resolve(from, asked[0]) && AllParsed(resolve, asked[1..], from + 1)
  {
    assert asked == [asked[0]] + asked[1..];
    AllParsedCons(resolve, asked[0], asked[1..], from);
  }

  /** What was found is made up of the addresses in the answers, question by question. */
  ghost predicate FoundByAnswers(resolve: Resolver, asked: seq<Addr>, from: nat, found: seq<Addr>)
    decreases |asked|
  {
    AllParsed(resolve, asked, from) ==>
      if asked == [] then found == []
      else
        AllParsedFront(resolve, asked, from);
        var more := Addresses(resolve(from, asked[0]));
        more <= found && FoundByAnswers(resolve, asked[1..], from + 1, found[|more|..])
  }

  lemma FoundByOneMore(resolve: Resolver, addr: Addr, asked: seq<Addr>, from: nat, found: seq<Addr>)
    requires None !in resolve(from, addr) && FoundByAnswers(resolve, asked, from + 1, found)
    ensures FoundByAnswers(resolve, [addr] + asked, from, Addresses(resolve(from, addr)) + found)
  {
    var all, more := [addr] + asked, Addresses(resolve(from, addr));
    assert all[0] == addr && all[1..] == asked;
    assert (more + found)[|more|..] == found;
    AllParsedCons(resolve, addr, asked, from);
  }

  lemma {:induction false} ResolutionFinds(stack: seq<Addr>, steps: nat, needs: Addr -> bool, resolve: Resolver)
    ensures var l := Resolution(stack, steps, needs, resolve); FoundByAnswers(resolve, l.asked, steps, l.found)
    decreases MAX_ADDRESS_RESOLUTION - Min(steps, MAX_ADDRESS_RESOLUTION), |stack|
  {
    if stack != [] {
      var rest, addr := stack[..|stack| - 1], stack[|stack| - 1];
      if !needs(addr) {
        ResolutionFinds(rest, steps, needs, resolve);
        var l := Resolution(rest, steps, needs, resolve);
        assert [] + l.asked == l.asked && [] + l.found == l.found;
      } else if steps + 1 >= MAX_ADDRESS_RESOLUTION {
        ResolutionFinds(rest, steps + 1, needs, resolve);
        ResolutionAsks(rest, steps + 1, needs, resolve);
        var l := Resolution(rest, steps + 1, needs, resolve);
        assert l.asked == [] && l.found == [];
      } else if None in resolve(steps, addr) {
        assert Unparsable(resolve, steps + 0, [addr][0]);
      } else {
        var more := Addresses(resolve(steps, addr));
        ResolutionFinds(rest + more, steps + 1, needs, resolve);
        var l := Resolution(rest + more, steps + 1, needs, resolve);
        FoundByOneMore(resolve, addr, l.asked, steps, l.found);
      }
    }
  }

  lemma {:induction false} FoundAtPlace(resolve: Resolver, asked: seq<Addr>, from: nat, found: seq<Addr>, k: nat, j: nat, t: nat)
    requires AllParsed(resolve, asked, from) && FoundByAnswers(resolve, asked, from, found)
    requires k < |asked| && j < |resolve(from + k, asked[k])|
    requires None !in resolve(from + k, asked[k]) && t < |resolve(from + k, asked[k])[j].value|
    ensures var answers := resolve(from + k, asked[k]);
            var at := FoundBefore(resolve, asked, from, k) + TotalLength(answers[..j]) + t;
            at < |found| && found[at] == answers[j].value[t]
    decreases |asked|
  {
    AllParsedFront(resolve, asked, from);
    var more := Addresses(resolve(from, asked[0]));
    AddressesLength(resolve(from, asked[0]));
    if k == 0 {
      AddressesAt(resolve(from, asked[0]), j, t);
    } else {
      FoundAtPlace(resolve, asked[1..], from + 1, found[|more|..], k - 1, j, t);
    }
  }

  lemma {:induction false} FoundLength(resolve: Resolver, asked: seq<Addr>, from: nat, found: seq<Addr>)
    requires AllParsed(resolve, asked, from) && FoundByAnswers(resolve, asked, from, found)
    ensures |found| == FoundBefore(resolve, asked, from, |asked|)
    decreases |asked|
  {
    if asked != [] {
      AllParsedFront(resolve, asked, from);
      AddressesLength(resolve(from, asked[0]));
      FoundLength(resolve, asked[1..], from + 1, found[|Addresses(resolve(from, asked[0]))|..]);
    }
  }

  /** What a resolution that does not crash found is made up of the answers to its questions and nothing else. */
  lemma FoundByQuestions(addrs: seq<Addr>, needs: Addr -> bool, resolve: Resolver, l: Listing)
    requires l == Resolution(addrs, 0, needs, resolve) && !l.crashed
    ensures AllParsed(resolve, l.asked, 0) && FoundByAnswers(resolve, l.asked, 0, l.found)
    ensures |l.found| == FoundBefore(resolve, l.asked, 0, |l.asked|)
  {
    ResolutionAsks(addrs, 0, needs, resolve);
    ResolutionFinds(addrs, 0, needs, resolve);
    FoundLength(resolve, l.asked, 0, l.found);
  }

  /** Every address of every answer is found, at its place: behind those of the questions and answers before it, in the order of the answer. */
  lemma FoundAt(resolve: Resolver, asked: seq<Addr>, found: seq<Addr>, k: nat, j: nat, t: nat)
    requires AllParsed(resolve, asked, 0) && FoundByAnswers(resolve, asked, 0, found) && k < |asked|
    ensures None !in resolve(k, asked[k])
    ensures var answers := resolve(k, asked[k]);
            j < |answers| && t < |answers[j].value| ==>
              var at := FoundBefore(resolve, asked, 0, k) + TotalLength(answers[..j]) + t;
              at < |found| && found[at] == answers[j].value[t]
  {
    assert !Unparsable(resolve, 0 + k, asked[k]);
    var answers := resolve(k, asked[k]);
    if j < |answers| && t < |answers[j].value| {
      FoundAtPlace(resolve, asked, 0, found, k, j, t);
    }
  }

  lemma {:induction false} FilterMember(s: seq<Addr>, a: Addr, keep: Addr -> bool)
    ensures a in Filter(s, keep) <==> a in s && keep(a)
  {
    if s != [] {
      FilterMember(s[..|s| - 1], a, keep);
    }
  }

  /** So every address of an answer that needs no resolution is in the result, and so is every address given that needs none. */
  lemma AnswersAreListed(addrs: seq<Addr>, needs: Addr -> bool, resolve: Resolver, l: Listing, k: nat, answer: Answer, a: Addr)
    requires l == Resolution(addrs, 0, needs, resolve) && !l.crashed && !needs(a)
    requires a in addrs || (k < |l.asked| && answer in resolve(k, l.asked[k]) && answer.Some? && a in answer.value)
    ensures a in l.addrs
  {
    if a !in addrs {
      var answers := resolve(k, l.asked[k]);
      var j :| 0 <= j < |answers| && answers[j] == answer;
      var t :| 0 <= t < |answer.value| && answer.value[t] == a;
      FoundByQuestions(addrs, needs, resolve, l);
      FoundAt(resolve, l.asked, l.found, k, j, t);
    }
    FilterMember(addrs + l.found, a, Negate(needs));
    ResolutionBalanced(addrs, 0, needs, resolve);
    assert a in multiset(l.addrs);
  }

  /** Pushes the addresses of each answer; one that does not parse is dereferenced all the same, which ends the program. */
  method PushAnswers(toResolve: seq<Addr>, answers: seq<Answer>) returns (stack: seq<Addr>, crashed: bool)
    ensures crashed <==> None in answers
    ensures !crashed ==> stack == toResolve + Addresses(answers)
  {
    stack := toResolve;
    assert answers[..0] == [];
    for k := 0 to |answers|
      invariant None !in answers[..k] && stack == toResolve + Addresses(answers[..k])
    {
      if answers[k].None? {
        return stack, true;
      }
      assert answers[..k + 1] == answers[..k] + [answers[k]];
      stack := stack + answers[k].value;
    }
    assert answers[..|answers|] == answers;
    crashed := false;
  }

  /**
   resolveAddrs, as Resolution has it. Its result holds, as often as they came up, exactly the
   addresses given or found that need no resolution; every address that needs it was put to
   the resolver unless the cap of 31 questions was reached; and the program ends early exactly
   when an answer does not parse.
   */
  method ResolveAddrs(addrs: seq<Addr>, needs: Addr -> bool, resolve: Resolver)
    returns (resolved: seq<Addr>, calls: nat, crashed: bool, ghost asked: seq<Addr>, ghost found: seq<Addr>)
    ensures calls < MAX_ADDRESS_RESOLUTION
    ensures forall a :: a in resolved ==> !needs(a)
    ensures !crashed ==> multiset(Filter(addrs, Negate(needs))) <= multiset(resolved)
    ensures |asked| == calls && (crashed <==> !AllParsed(resolve, asked, 0))
    ensures !crashed ==>
              && multiset(resolved) == multiset(Filter(addrs + found, Negate(needs)))
              && calls == Min(|Filter(addrs + found, needs)|, MAX_ADDRESS_RESOLUTION - 1)
    ensures var l := Resolution(addrs, 0, needs, resolve);
            resolved == l.addrs && crashed == l.crashed && asked == l.asked && found == l.found
  {
    var steps: nat;
    resolved, calls, steps, crashed, asked, found := Resolve(addrs, needs, resolve);
    ResolutionAsks(addrs, 0, needs, resolve);
    if !crashed {
      ResolutionBalanced(addrs, 0, needs, resolve);
      FilterCounts(addrs, found, Negate(needs));
    }
  }

  /** The loop of resolveAddrs. */
  method Resolve(addrs: seq<Addr>, needs: Addr -> bool, resolve: Resolver)
    returns (resolved: seq<Addr>, calls: nat, resolveSteps: nat, crashed: bool, ghost asked: seq<Addr>, ghost found: seq<Addr>)
    ensures Resolution(addrs, 0, needs, resolve) == Listing(resolved, asked, found, resolveSteps, crashed)
    ensures calls == |asked|
  {
    ghost var whole := Resolution(addrs, 0, needs, resolve);
    ghost var l := Listing([], [], [], 0, false);
    NothingBefore(0, whole);
    resolveSteps := 0;
    var toResolve := addrs;
    resolved, calls, crashed := [], 0, false;
    while |toResolve| > 0
      invariant calls == |l.asked| == Min(resolveSteps, MAX_ADDRESS_RESOLUTION - 1) && resolved == l.addrs && !crashed
      invariant whole == Then(l, Resolution(toResolve, resolveSteps, needs, resolve))
      decreases MAX_ADDRESS_RESOLUTION - calls, |toResolve|
    {
      ghost var before := Resolution(toResolve, resolveSteps, needs, resolve);
      // pop the last address
      var addr := toResolve[|toResolve| - 1];
      toResolve := toResolve[..|toResolve| - 1];
      if !needs(addr) {
        resolved := resolved + [addr];
        ThenTwice(l, Plain(addr), Resolution(toResolve, resolveSteps, needs, resolve));
        l := Then(l, Plain(addr));
        continue;
      }
      resolveSteps := resolveSteps + 1;
      if resolveSteps >= MAX_ADDRESS_RESOLUTION {
        continue;
      }
      var answers := resolve(calls, addr);
      calls := calls + 1;
      ghost var rest := toResolve;
      toResolve, crashed := PushAnswers(toResolve, answers);
      if crashed {
        assert before == Listing([], [addr], [], resolveSteps, true);
        asked, found := l.asked + [addr], l.found;
        return;
      }
      ThenTwice(l, Asked(addr, Addresses(answers)), Resolution(toResolve, resolveSteps, needs, resolve));
      l := Then(l, Asked(addr, Addresses(answers)));
    }
    asked, found := l.asked, l.found;
  }

  // ---------- deduplication ----------

  function Elements(s: seq<Addr>): set<Addr> {
    set a | a in s
  }

  lemma ElementsSnoc(s: seq<Addr>, k: nat)
    requires k < |s|
    ensures s[..k + 1] == s[..k] + [s[k]]
    ensures Elements(s[..k + 1]) == Elements(s[..k]) + {s[k]}
  {
    assert s[..k + 1] == s[..k] + [s[k]];
    assert forall a :: a in s[..k + 1] <==> a in s[..k] || a == s[k];
  }

  ghost predicate NoDuplicates(s: seq<Addr>) {
    forall i, j :: 0 <= i < j < |s| ==> s[i] != s[j]
  }

  /** unique lists the elements of addrs once each, in the order of their first appearance. */
  ghost predicate FirstAppearances(addrs: seq<Addr>, unique: seq<Addr>, at: seq<nat>) {
    && |at| == |unique| && Elements(unique) == Elements(addrs)
    && (forall i :: 0 <= i < |at| ==> at[i] < |addrs| && unique[i] == addrs[at[i]] && addrs[at[i]] !in addrs[..at[i]])
    && forall i, j :: 0 <= i < j < |at| ==> at[i] < at[j]
  }

  method DedupAddrs(addrs: seq<Addr>) returns (unique: seq<Addr>, ghost at: seq<nat>)
    ensures NoDuplicates(unique) && Elements(unique) == Elements(addrs)
    ensures FirstAppearances(addrs, unique, at)
  {
    var seen: set<Addr> := {};
    unique, at := [], [];
    assert addrs[..0] == [];
    for k := 0 to |addrs|
      invariant seen == Elements(addrs[..k]) == Elements(unique)
      invariant NoDuplicates(unique)
      invariant |at| == |unique|
      invariant forall i :: 0 <= i < |at| ==> at[i] < k && unique[i] == addrs[at[i]] && addrs[at[i]] !in addrs[..at[i]]
      invariant forall i, j :: 0 <= i < j < |at| ==> at[i] < at[j]
    {
      ElementsSnoc(addrs, k);
      if addrs[k] in seen {
        continue;
      }
      seen := seen + {addrs[k]};
      assert forall i :: 0 <= i < |unique| ==> unique[i] in Elements(unique);
      unique, at := unique + [addrs[k]], at + [k];
    }
    assert addrs[..|addrs|] == addrs;
  }

  // ---------- change events ----------

  datatype Action = Added | Maintained

  /** Current addresses with what became of them, and the addresses that went. */
  datatype Event = Event(current: seq<(Addr, Action)>, removed: set<Addr>)
  {
    function AddedSet(): set<Addr> {
      set i | 0 <= i < |current| && current[i].1 == Added :: current[i].0
    }
  }

  /** An address is maintained the first time it is listed if it was there before. */
  ghost predicate Flagged(prev: seq<Addr>, current: seq<Addr>, out: seq<(Addr, Action)>) {
    && |out| == |current|
    && forall i :: 0 <= i < |current| ==>
         && out[i].0 == current[i]
         && (out[i].1 == Maintained <==> current[i] in prev && current[i] !in current[..i])
  }

  /** What makeUpdatedAddrEvent answers: no event iff the sets are equal and nothing is listed twice. */
  ghost predicate IsEvent(prev: seq<Addr>, current: seq<Addr>, evt: Option<Event>) {
    if evt.None? then Elements(prev) == Elements(current) && NoDuplicates(current)
    else
      && !(Elements(prev) == Elements(current) && NoDuplicates(current))
      && Flagged(prev, current, evt.value.current)
      && evt.value.removed == Elements(prev) - Elements(current)
  }

  method MakeUpdatedAddrEvent(prev: seq<Addr>, current: seq<Addr>) returns (evt: Option<Event>)
    ensures IsEvent(prev, current, evt)
    ensures evt.Some? ==> IsDiff(prev, current, evt.value)
  {
    var prevmap := Elements(prev);
    var out: seq<(Addr, Action)> := [];
    var addrsAdded := false;
    for k := 0 to |current|
      invariant prevmap == Elements(prev) - Elements(current[..k])
      invariant Flagged(prev, current[..k], out)
      invariant addrsAdded == AnyAdded(out)
    {
      var addr := current[k];
      ElementsSnoc(current, k);
      var action := if addr in prevmap then Maintained else Added;
      assert addr in prevmap <==> addr in prev && addr !in current[..k];
      FlaggedSnoc(prev, current, k, out, action);
      AnyAddedSnoc(out, (addr, action));
      addrsAdded := addrsAdded || action == Added;
      out := out + [(addr, action)];
      prevmap := prevmap - {addr};
    }
    assert current[..|current|] == current;
    EventIff(prev, current, out);
    DiffOf(prev, current, Event(out, prevmap));
    evt := if !addrsAdded && prevmap == {} then None else Some(Event(out, prevmap));
  }

  predicate AnyAdded(out: seq<(Addr, Action)>) {
    exists i :: 0 <= i < |out| && out[i].1 == Added
  }

  lemma AnyAddedSnoc(out: seq<(Addr, Action)>, x: (Addr, Action))
    ensures AnyAdded(out + [x]) <==> AnyAdded(out) || x.1 == Added
  {
    var out' := out + [x];
    if AnyAdded(out) {
      var i :| 0 <= i < |out| && out[i].1 == Added;
      assert out'[i].1 == Added;
    }
    assert out'[|out|] == x;
  }

  /** Nothing was added or removed exactly when the sets are equal and nothing is listed twice. */
  lemma EventIff(prev: seq<Addr>, current: seq<Addr>, out: seq<(Addr, Action)>)
    requires Flagged(prev, current, out)
    ensures !AnyAdded(out) && Elements(prev) - Elements(current) == {} <==>
            Elements(prev) == Elements(current) && NoDuplicates(current)
  {
    if AnyAdded(out) {
      SomeAdded(prev, current, out);
    } else {
      NoneAdded(prev, current, out);
      if Elements(prev) - Elements(current) == {} {
        forall a | a in Elements(prev)
          ensures a in Elements(current)
        {
          assert a !in Elements(prev) - Elements(current);
        }
      }
    }
  }

  lemma FlaggedSnoc(prev: seq<Addr>, current: seq<Addr>, k: nat, out: seq<(Addr, Action)>, action: Action)
    requires k < |current| && Flagged(prev, current[..k], out)
    requires action == Maintained <==> current[k] in prev && current[k] !in current[..k]
    ensures Flagged(prev, current[..k + 1], out + [(current[k], action)])
  {
    var listed, more := current[..k + 1], out + [(current[k], action)];
    forall i | 0 <= i < |listed|
      ensures more[i].0 == listed[i] && (more[i].1 == Maintained <==> listed[i] in prev && listed[i] !in listed[..i])
    {
      assert listed[..i] == current[..i];
      if i < k {
        assert current[..k][..i] == current[..i] && more[i] == out[i];
      }
    }
  }

  lemma NoneAdded(prev: seq<Addr>, current: seq<Addr>, out: seq<(Addr, Action)>)
    requires Flagged(prev, current, out) && !AnyAdded(out)
    ensures NoDuplicates(current) && Elements(current) <= Elements(prev)
  {
    forall i, j | 0 <= i < j < |current|
      ensures current[i] != current[j]
    {
      assert out[j].1 == Maintained;
      assert current[i] == current[..j][i];
    }
  }

  lemma SomeAdded(prev: seq<Addr>, current: seq<Addr>, out: seq<(Addr, Action)>)
    requires Flagged(prev, current, out) && AnyAdded(out)
    ensures !(Elements(prev) == Elements(current) && NoDuplicates(current))
  {
    var i :| 0 <= i < |out| && out[i].1 == Added;
    assert current[i] in Elements(current);
  }

  /** An event that takes the previous set to the current one, adding only current and removing only previous addresses. */
  ghost predicate IsDiff(prev: seq<Addr>, current: seq<Addr>, evt: Event) {
    && Elements(prev) - evt.removed + evt.AddedSet() == Elements(current)
    && evt.removed == Elements(prev) - Elements(current)
    && Elements(current) - Elements(prev) <= evt.AddedSet() <= Elements(current)
    && (evt.AddedSet() == Elements(current) - Elements(prev) <==> NoRepeatOf(prev, current))
  }

  /** No previous address is listed twice. */
  ghost predicate NoRepeatOf(prev: seq<Addr>, current: seq<Addr>) {
    forall i, j :: 0 <= i < j < |current| && current[i] == current[j] ==> current[i] !in prev
  }

  lemma DiffOf(prev: seq<Addr>, current: seq<Addr>, evt: Event)
    requires Flagged(prev, current, evt.current) && evt.removed == Elements(prev) - Elements(current)
    ensures IsDiff(prev, current, evt)
  {
    var added, cur, before := evt.AddedSet(), Elements(current), Elements(prev);
    forall a | a in cur - before
      ensures a in added
    {
      var i :| 0 <= i < |current| && current[i] == a;
      assert evt.current[i].1 == Added;
    }
    if NoRepeatOf(prev, current) {
      forall a | a in added
        ensures a in cur - before
      {
        var i :| 0 <= i < |current| && evt.current[i].1 == Added && evt.current[i].0 == a;
        assert current[i] !in prev;
      }
    } else {
      var i, j :| 0 <= i < j < |current| && current[i] == current[j] && current[i] in prev;
      assert current[..j][i] == current[j];
      assert evt.current[j].1 == Added && current[j] in added;
    }
  }

  // ---------- a subscriber over a series of lists ----------

  /** What a subscriber that holds s makes of an event. */
  function Fold(s: set<Addr>, evt: Option<Event>): set<Addr> {
    if evt.None? then s else s - evt.value.removed + evt.value.AddedSet()
  }

  /** The list before the k-th one of a series; the first is compared with an empty list. */
  function Before(lists: seq<seq<Addr>>, k: nat): seq<Addr>
    requires k <= |lists|
  {
    if k == 0 then [] else lists[k - 1]
  }

  /** The k-th list changes whether a is a member. */
  predicate Changes(lists: seq<seq<Addr>>, k: nat, a: Addr)
    requires k < |lists|
  {
    (a in Before(lists, k)) != (a in lists[k])
  }

  /** The event of the k-th list names a: its membership changes, or it is listed twice and so announced again. */
  ghost predicate Touches(lists: seq<seq<Addr>>, k: nat, a: Addr)
    requires k < |lists|
  {
    Changes(lists, k, a) || Repeats(lists[k], a)
  }

  ghost predicate Repeats(s: seq<Addr>, a: Addr) {
    exists i, j :: 0 <= i < j < |s| && s[i] == s[j] == a
  }

  /** Changes of a that were skipped since the last emitted event that names it, or since the start, within the first n lists. */
  ghost function SkippedSince(lists: seq<seq<Addr>>, emitted: seq<bool>, a: Addr, n: nat): nat
    requires n <= |lists| == |emitted|
  {
    if n == 0 || (emitted[n - 1] && Touches(lists, n - 1, a)) then 0
    else SkippedSince(lists, emitted, a, n - 1) + if Changes(lists, n - 1, a) then 1 else 0
  }

  /** A subscriber told of every change in a series of address lists holds the set of the last list. */
  method Announce(lists: seq<seq<Addr>>) returns (held: set<Addr>)
    ensures held == Elements(Before(lists, |lists|))
  {
    held := {};
    for k := 0 to |lists|
      invariant held == Elements(Before(lists, k))
    {
      var evt := MakeUpdatedAddrEvent(Before(lists, k), lists[k]);
      held := Fold(held, evt);
    }
  }

  /**
   A series in which some events are not emitted, as when their signed record cannot be
   made; the next event is still computed from the list whose event was lost. An address
   is held as the last list has it exactly when an even number of its changes was skipped
   since the last emitted event that names it.
   */
  method AnnounceSome(lists: seq<seq<Addr>>, emitted: seq<bool>) returns (held: set<Addr>)
    requires |lists| == |emitted|
    ensures forall a :: (a in held <==> a in Before(lists, |lists|)) <==> SkippedSince(lists, emitted, a, |lists|) % 2 == 0
  {
    held := {};
    for k := 0 to |lists|
      invariant forall a :: RightIffEven(lists, emitted, a in held, k, a)
    {
      var evt := MakeUpdatedAddrEvent(Before(lists, k), lists[k]);
      ghost var before := held;
      if emitted[k] {
        held := Fold(held, evt);
      }
      forall a {:trigger RightIffEven(lists, emitted, a in held, k + 1, a)}
        ensures RightIffEven(lists, emitted, a in held, k + 1, a)
      {
        FoldMember(before, Before(lists, k), lists[k], evt, a);
        RightStep(lists, emitted, a in before, a in held, k, a);
      }
    }
  }

  /** After n lists, a is held as the last of them has it exactly when an even number of its changes was skipped. */
  ghost predicate RightIffEven(lists: seq<seq<Addr>>, emitted: seq<bool>, held: bool, n: nat, a: Addr)
    requires n <= |lists| == |emitted|
  {
    (held <==> a in Before(lists, n)) <==> SkippedSince(lists, emitted, a, n) % 2 == 0
  }

  lemma RightStep(lists: seq<seq<Addr>>, emitted: seq<bool>, held: bool, held': bool, k: nat, a: Addr)
    requires k < |lists| == |emitted|
    requires held' == if emitted[k] && Touches(lists, k, a) then a in lists[k] else held
    requires RightIffEven(lists, emitted, held, k, a)
    ensures RightIffEven(lists, emitted, held', k + 1, a)
  {
    OneMore(SkippedSince(lists, emitted, a, k));
  }

  lemma OneMore(n: nat)
    ensures (n + 1) % 2 == 0 <==> n % 2 != 0
  {
  }

  /** Folding an event sets the membership of an address it names and leaves any other. */
  lemma FoldMember(s: set<Addr>, prev: seq<Addr>, current: seq<Addr>, evt: Option<Event>, a: Addr)
    requires IsEvent(prev, current, evt)
    ensures a in Fold(s, evt) <==> if (a in prev) != (a in current) || Repeats(current, a) then a in current else a in s
  {
    if evt.Some? {
      AddedIff(prev, current, evt.value, a);
      assert a in evt.value.removed <==> a in prev && a !in current;
    } else {
      assert a in Elements(prev) <==> a in Elements(current);
    }
  }

  /** An event announces an address as added exactly when it is new or listed twice. */
  lemma AddedIff(prev: seq<Addr>, current: seq<Addr>, evt: Event, a: Addr)
    requires Flagged(prev, current, evt.current)
    ensures a in evt.AddedSet() <==> a in current && (a !in prev || Repeats(current, a))
  {
    if a in evt.AddedSet() {
      var i :| 0 <= i < |current| && evt.current[i].1 == Added && evt.current[i].0 == a;
      if a in prev {
        var j :| 0 <= j < i && current[..i][j] == a;
        assert current[j] == current[i] == a;
      }
    }
    if a in current && a !in prev {
      var i :| 0 <= i < |current| && current[i] == a;
      assert evt.current[i].1 == Added;
    }
    if i, j :| 0 <= i < j < |current| && current[i] == current[j] == a {
      assert current[..j][i] == a;
      assert evt.current[j].1 == Added;
    }
  }

  /**
   The last change of an address may be lost without harm: come and gone unannounced, it is
   rightly not held. And a lost address that is listed twice is announced again without a change.
   */
  lemma SkippedTwiceIsCurrent(x: Addr)
    ensures SkippedSince([[x], []], [false, false], x, 2) % 2 == 0
    ensures SkippedSince([[x], []], [false, false], x, 1) % 2 == 1
    ensures SkippedSince([[x], []], [false, true], x, 2) == 0
    ensures SkippedSince([[x], [x]], [false, true], x, 2) == 1
    ensures SkippedSince([[x], [x, x]], [false, true], x, 2) == 0
  {
    var lists := [[x], []];
    assert Changes(lists, 0, x) && Changes(lists, 1, x);
    assert SkippedSince(lists, [false, false], x, 1) == SkippedSince(lists, [false, false], x, 0) + 1;
    assert SkippedSince([[x], [x]], [false, true], x, 1) == 1;
    assert [x, x][0] == [x, x][1] == x;
  }
}

/** `MapAdapter.match`: one pass over the rule table in order, growing the
    405 method set, the list of deferred candidates and the mismatch flag,
    with an early return for the first rule that ends the scan. */
module Matcher {
  import opened Wrappers
  import opened Routing
  import opened StableSort

  /** Returning from inside the loop is right: the rule at `i` ends the
      scan and none before it did. */
  lemma EarlyExit(rules: seq<Rule>, a: Adapter, httpMethod: Method, i: nat)
    requires i < |rules|
    requires forall j :: 0 <= j < i ==> !Steps(rules, a, httpMethod)[j].Terminal?
    requires Examine(rules[i], i, a, httpMethod).Terminal?
    ensures MatchSpec(rules, a, httpMethod) == Examine(rules[i], i, a, httpMethod).outcome
  {
    var steps := Steps(rules, a, httpMethod);
    var f := FirstTerminal(steps);
    assert !(f < i) && !(i < f);
  }

  /** Falling off the end of the table is right: no rule ended the scan,
      so the accumulated 405 set, deferrals and mismatch flag decide. */
  lemma ScanExhausted(rules: seq<Rule>, a: Adapter, httpMethod: Method)
    requires forall j :: 0 <= j < |rules| ==> !Steps(rules, a, httpMethod)[j].Terminal?
    ensures var steps := Steps(rules, a, httpMethod);
      MatchSpec(rules, a, httpMethod) ==
        if Denied(steps) != {} then MethodNotAllowed(Denied(steps))
        else if Deferrals(steps) != [] then
          var c := Deferrals(steps)[EarliestMax(Deferrals(steps))];
          Matched(c.index, c.rule.endpoint, c.vars)
        else if exists j :: 0 <= j < |steps| && steps[j].Refused? then NotAcceptable
        else NotFound
  {
  }

  /** What one more rule adds to the 405 set and to the deferred list. */
  lemma Advance(steps: seq<Step>, i: nat)
    requires i < |steps|
    ensures Denied(steps[..i + 1]) == Denied(steps[..i]) + (if steps[i].WrongMethod? then steps[i].methods else {})
    ensures Deferrals(steps[..i + 1]) == Deferrals(steps[..i]) + (if steps[i].Deferred? then [steps[i].c] else [])
  {
    assert steps[..i + 1] == steps[..i] + [steps[i]];
    DeniedSnoc(steps[..i], steps[i]);
    DeferralsSnoc(steps[..i], steps[i]);
  }

  /** Matches the request bound in `a` against the rule table `rules`.
      `given` is the `method` argument (None or empty means the adapter's
      default). The outcome is exactly MatchSpec's; the table is not
      changed (it is a value). */
  method Match(rules: seq<Rule>, a: Adapter, given: Option<string>) returns (o: Outcome)
    ensures o == MatchSpec(rules, a, ResolveMethod(given, a.defaultMethod))
  {
    var httpMethod := ResolveMethod(given, a.defaultMethod);
    ghost var steps := Steps(rules, a, httpMethod);

    var haveMatchFor: set<Method> := {};
    var candidates: seq<Candidate> := [];
    var mismatched := false;
    for i := 0 to |rules|
      invariant forall j :: 0 <= j < i ==> !steps[j].Terminal?
      invariant haveMatchFor == Denied(steps[..i])
      invariant candidates == Deferrals(steps[..i])
      invariant mismatched <==> exists j :: 0 <= j < i && steps[j].Refused?
    {
      assert steps[i] == Examine(rules[i], i, a, httpMethod);
      Advance(steps, i);
      var rule := rules[i];
      var p := a.probe(i);
      if p.path.NeedSlash? {
        EarlyExit(rules, a, httpMethod, i);
        return Redirect(AppendSlash(a.pathInfo + "/"));
      }
      if p.path.AliasMatch? {
        EarlyExit(rules, a, httpMethod, i);
        return Redirect(ToAlias(rule.endpoint, p.path.values));
      }
      if p.path.NoMatch? {
        continue;
      }
      var rv := p.path.vars;
      if rule.methods.Some? && httpMethod !in rule.methods.value {
        haveMatchFor := haveMatchFor + rule.methods.value;
        continue;
      }
      if rule.mimetype.Some? {
        var q := a.accept(rule.mimetype.value);
        if q == 0 {
          mismatched := true;
          continue;
        } else if q < FullQuality {
          candidates := candidates + [Candidate(q, i, rule, rv)];
          continue;
        }
      }
      if a.redirectDefaults && p.defaultRedirect.Some? {
        EarlyExit(rules, a, httpMethod, i);
        return Redirect(ToDefaults(p.defaultRedirect.value));
      }
      if rule.redirectTo.Some? {
        EarlyExit(rules, a, httpMethod, i);
        return Redirect(ToTarget(rule.redirectTo.value, rv));
      }
      EarlyExit(rules, a, httpMethod, i);
      return Matched(i, rule.endpoint, rv);
    }
    assert steps[..|rules|] == steps;
    ScanExhausted(rules, a, httpMethod);

    if haveMatchFor != {} {
      return MethodNotAllowed(haveMatchFor);
    }
    if candidates != [] {
      var best := SortedDesc(candidates)[0];
      SortedDescHead(candidates);
      return Matched(best.index, best.rule.endpoint, best.vars);
    }
    if mismatched {
      return NotAcceptable;
    }
    return NotFound;
  }
}

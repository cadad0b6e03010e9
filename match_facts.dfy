/** What one match promises, stated over the rule table itself: which rule
    can be returned, which redirects win, what a 405 carries, and the order
    of the outcomes after the scan. Every lemma is about MatchSpec, which
    the imperative Matcher.Match is proved to compute. */
module MatchFacts {
  import opened Wrappers
  import opened Routing

  /** No rule before position `k` ends the scan, so the scan reaches `k`. */
  predicate Reaches(rules: seq<Rule>, a: Adapter, httpMethod: Method, k: nat) {
    k <= |rules| && forall j :: 0 <= j < k ==> !Examine(rules[j], j, a, httpMethod).Terminal?
  }

  /** Rule `j` matched the path and accepts the method. */
  predicate Eligible(rules: seq<Rule>, a: Adapter, httpMethod: Method, j: nat) {
    j < |rules| && a.probe(j).path.Match? && Allows(rules[j], httpMethod)
  }

  /** Rule `j` is eligible and has no mimetype or one of quality 1. */
  predicate Immediate(rules: seq<Rule>, a: Adapter, httpMethod: Method, j: nat) {
    Eligible(rules, a, httpMethod, j)
    && (rules[j].mimetype.None? || a.accept(rules[j].mimetype.value) == FullQuality)
  }

  /** Rule `j` is eligible and its mimetype has quality 0. */
  predicate Refusing(rules: seq<Rule>, a: Adapter, httpMethod: Method, j: nat) {
    Eligible(rules, a, httpMethod, j)
    && rules[j].mimetype.Some? && a.accept(rules[j].mimetype.value) == 0
  }

  /** Rule `j` is eligible and its mimetype has a fractional quality. */
  predicate Deferring(rules: seq<Rule>, a: Adapter, httpMethod: Method, j: nat) {
    Eligible(rules, a, httpMethod, j)
    && rules[j].mimetype.Some? && 0 < a.accept(rules[j].mimetype.value) < FullQuality
  }

  /** The union of the methods of every rule that matched the path but not
      the method. */
  function DeniedMethods(rules: seq<Rule>, a: Adapter, httpMethod: Method): set<Method> {
    set j, m | 0 <= j < |rules| && a.probe(j).path.Match? && !Allows(rules[j], httpMethod)
                 && m in rules[j].methods.value :: m
  }

  /** Deferred rule `k` has the highest quality, and every deferred rule
      before it a strictly lower one. */
  predicate BestDeferred(rules: seq<Rule>, a: Adapter, httpMethod: Method, k: nat) {
    Deferring(rules, a, httpMethod, k)
    && (forall j :: 0 <= j < |rules| && Deferring(rules, a, httpMethod, j) ==>
          a.accept(rules[j].mimetype.value) <= a.accept(rules[k].mimetype.value))
    && (forall j :: 0 <= j < k && Deferring(rules, a, httpMethod, j) ==>
          a.accept(rules[j].mimetype.value) < a.accept(rules[k].mimetype.value))
  }

  // ---------------------------------------------------------------------
  // The steps, read back in terms of the rules

  /** A rule ends the scan exactly when werkzeug reports a missing slash or
      an alias for it, or it is accepted outright. */
  lemma TerminalMeaning(rules: seq<Rule>, a: Adapter, httpMethod: Method, j: nat)
    requires j < |rules|
    ensures Examine(rules[j], j, a, httpMethod).Terminal?
        <==> a.probe(j).path.NeedSlash? || a.probe(j).path.AliasMatch? || Immediate(rules, a, httpMethod, j)
  {
  }

  /** Every deferred step sits at the position its candidate names. */
  predicate Indexed(steps: seq<Step>) {
    forall j :: 0 <= j < |steps| && steps[j].Deferred? ==> steps[j].c.index == j
  }

  /** Each deferral sits, as a deferred step, at the position it names. */
  lemma {:induction false} DeferralsAt(steps: seq<Step>)
    requires Indexed(steps)
    ensures forall p :: 0 <= p < |Deferrals(steps)| ==>
      Deferrals(steps)[p].index < |steps| && steps[Deferrals(steps)[p].index] == Deferred(Deferrals(steps)[p])
  {
    if steps != [] {
      var n := |steps| - 1;
      var s := steps[..n];
      assert Indexed(s);
      DeferralsAt(s);
      DeferralsSnoc(s, steps[n]);
      assert steps == s + [steps[n]];
      var ds := Deferrals(steps);
      forall p | 0 <= p < |ds|
        ensures ds[p].index < |steps| && steps[ds[p].index] == Deferred(ds[p])
      {
        if p < |Deferrals(s)| {
          assert ds[p] == Deferrals(s)[p];
        }
      }
    }
  }

  /** The deferrals are in table order. */
  lemma {:induction false} DeferralsIncreasing(steps: seq<Step>)
    requires Indexed(steps)
    ensures forall p, p' :: 0 <= p < p' < |Deferrals(steps)| ==>
      Deferrals(steps)[p].index < Deferrals(steps)[p'].index
  {
    if steps != [] {
      var n := |steps| - 1;
      var s := steps[..n];
      assert Indexed(s);
      DeferralsIncreasing(s);
      DeferralsAt(s);
      DeferralsSnoc(s, steps[n]);
      var ds := Deferrals(steps);
      var dp := Deferrals(s);
      forall p, p' | 0 <= p < p' < |ds| ensures ds[p].index < ds[p'].index {
        assert ds[p] == dp[p];
        if p' < |dp| {
          assert ds[p'] == dp[p'];
        } else {
          assert ds[p'] == steps[n].c;
        }
      }
    }
  }

  /** Every deferred step is in the deferral list. */
  lemma {:induction false} DeferralsComplete(steps: seq<Step>)
    ensures forall j :: 0 <= j < |steps| && steps[j].Deferred? ==> steps[j].c in Deferrals(steps)
  {
    if steps != [] {
      var n := |steps| - 1;
      var s := steps[..n];
      DeferralsComplete(s);
      DeferralsSnoc(s, steps[n]);
      assert steps == s + [steps[n]];
      forall j | 0 <= j < |steps| && steps[j].Deferred? ensures steps[j].c in Deferrals(steps) {
        if j < n {
          assert steps[j] == s[j];
        }
      }
    }
  }

  /** The deferral list holds exactly the deferred steps, in table order. */
  lemma DeferralsInOrder(steps: seq<Step>)
    requires Indexed(steps)
    ensures forall p :: 0 <= p < |Deferrals(steps)| ==>
      Deferrals(steps)[p].index < |steps| && steps[Deferrals(steps)[p].index] == Deferred(Deferrals(steps)[p])
    ensures forall p, p' :: 0 <= p < p' < |Deferrals(steps)| ==>
      Deferrals(steps)[p].index < Deferrals(steps)[p'].index
    ensures forall j :: 0 <= j < |steps| && steps[j].Deferred? ==> steps[j].c in Deferrals(steps)
  {
    DeferralsAt(steps);
    DeferralsIncreasing(steps);
    DeferralsComplete(steps);
  }

  lemma StepsIndexed(rules: seq<Rule>, a: Adapter, httpMethod: Method)
    ensures Indexed(Steps(rules, a, httpMethod))
  {
  }

  lemma DeniedMeaning(rules: seq<Rule>, a: Adapter, httpMethod: Method)
    ensures Denied(Steps(rules, a, httpMethod)) == DeniedMethods(rules, a, httpMethod)
  {
    var steps := Steps(rules, a, httpMethod);
    forall m | m in Denied(steps) ensures m in DeniedMethods(rules, a, httpMethod) {
      var j :| 0 <= j < |steps| && steps[j].WrongMethod? && m in steps[j].methods;
      assert steps[j] == Examine(rules[j], j, a, httpMethod);
    }
    forall m | m in DeniedMethods(rules, a, httpMethod) ensures m in Denied(steps) {
      var j :| 0 <= j < |rules| && a.probe(j).path.Match? && !Allows(rules[j], httpMethod)
               && m in rules[j].methods.value;
      assert steps[j] == WrongMethod(rules[j].methods.value);
    }
  }

  lemma RefusedMeaning(rules: seq<Rule>, a: Adapter, httpMethod: Method)
    ensures (exists j :: 0 <= j < |rules| && Steps(rules, a, httpMethod)[j].Refused?)
        <==> (exists j :: 0 <= j < |rules| && Refusing(rules, a, httpMethod, j))
  {
    var steps := Steps(rules, a, httpMethod);
    forall j | 0 <= j < |rules| && Refusing(rules, a, httpMethod, j) ensures steps[j].Refused? { }
    forall j | 0 <= j < |rules| && steps[j].Refused? ensures Refusing(rules, a, httpMethod, j) { }
  }

  lemma DeferredMeaning(rules: seq<Rule>, a: Adapter, httpMethod: Method)
    ensures (Deferrals(Steps(rules, a, httpMethod)) != [])
        <==> (exists j :: 0 <= j < |rules| && Deferring(rules, a, httpMethod, j))
  {
    var steps := Steps(rules, a, httpMethod);
    StepsIndexed(rules, a, httpMethod);
    DeferralsAt(steps);
    DeferralsComplete(steps);
    forall j | 0 <= j < |rules| && Deferring(rules, a, httpMethod, j)
      ensures Deferrals(steps) != []
    {
      assert steps[j].Deferred?;
    }
    if Deferrals(steps) != [] {
      var c := Deferrals(steps)[0];
      assert steps[c.index] == Deferred(c);
      assert Deferring(rules, a, httpMethod, c.index);
    }
  }

  /** The aggregates of the scan, read back in terms of the rules. */
  lemma StepsMeaning(rules: seq<Rule>, a: Adapter, httpMethod: Method)
    ensures Indexed(Steps(rules, a, httpMethod))
    ensures Denied(Steps(rules, a, httpMethod)) == DeniedMethods(rules, a, httpMethod)
    ensures (exists j :: 0 <= j < |rules| && Steps(rules, a, httpMethod)[j].Refused?)
        <==> (exists j :: 0 <= j < |rules| && Refusing(rules, a, httpMethod, j))
    ensures (Deferrals(Steps(rules, a, httpMethod)) != [])
        <==> (exists j :: 0 <= j < |rules| && Deferring(rules, a, httpMethod, j))
    ensures Reaches(rules, a, httpMethod, |rules|)
        <==> !exists j :: 0 <= j < |rules| && Steps(rules, a, httpMethod)[j].Terminal?
  {
    StepsIndexed(rules, a, httpMethod);
    DeniedMeaning(rules, a, httpMethod);
    RefusedMeaning(rules, a, httpMethod);
    DeferredMeaning(rules, a, httpMethod);
  }

  // ---------------------------------------------------------------------
  // The first rule that ends the scan decides, and later rules do not count

  lemma TerminalDecides(rules: seq<Rule>, a: Adapter, httpMethod: Method, k: nat)
    requires k < |rules| && Reaches(rules, a, httpMethod, k)
    requires Examine(rules[k], k, a, httpMethod).Terminal?
    ensures MatchSpec(rules, a, httpMethod) == Examine(rules[k], k, a, httpMethod).outcome
  {
    var steps := Steps(rules, a, httpMethod);
    assert steps[k].Terminal?;
    var f := FirstTerminal(steps);
    assert !(f < k) && !(k < f);
  }

  /** A missing trailing slash, reported by a rule the scan reaches,
      redirects to the path with "/" appended. */
  lemma SlashRedirects(rules: seq<Rule>, a: Adapter, httpMethod: Method, k: nat)
    requires k < |rules| && Reaches(rules, a, httpMethod, k)
    requires a.probe(k).path.NeedSlash?
    ensures MatchSpec(rules, a, httpMethod) == Redirect(AppendSlash(a.pathInfo + "/"))
  {
    TerminalDecides(rules, a, httpMethod, k);
  }

  /** An alias hit, on a rule the scan reaches, redirects to that rule's
      endpoint with the matched values. */
  lemma AliasRedirects(rules: seq<Rule>, a: Adapter, httpMethod: Method, k: nat)
    requires k < |rules| && Reaches(rules, a, httpMethod, k)
    requires a.probe(k).path.AliasMatch?
    ensures MatchSpec(rules, a, httpMethod) == Redirect(ToAlias(rules[k].endpoint, a.probe(k).path.values))
  {
    TerminalDecides(rules, a, httpMethod, k);
  }

  /** Once a rule ends the scan, the rules after it are never examined:
      replacing them by anything, and werkzeug's answers for them by
      anything (adapter `b` agrees with `a` only up to position `k`), leaves
      the outcome unchanged. */
  lemma LaterRulesIrrelevant(rules: seq<Rule>, rest: seq<Rule>, a: Adapter, b: Adapter, httpMethod: Method, k: nat)
    requires k < |rules| && Reaches(rules, a, httpMethod, k)
    requires Examine(rules[k], k, a, httpMethod).Terminal?
    requires b.pathInfo == a.pathInfo && b.accept == a.accept && b.redirectDefaults == a.redirectDefaults
    requires forall j :: 0 <= j <= k ==> b.probe(j) == a.probe(j)
    ensures MatchSpec(rules[..k + 1] + rest, b, httpMethod) == MatchSpec(rules, a, httpMethod)
  {
    var other := rules[..k + 1] + rest;
    assert forall j :: 0 <= j <= k ==> other[j] == rules[j];
    assert forall j :: 0 <= j <= k ==> Examine(other[j], j, b, httpMethod) == Examine(rules[j], j, a, httpMethod);
    assert Reaches(other, b, httpMethod, k);
    TerminalDecides(rules, a, httpMethod, k);
    TerminalDecides(other, b, httpMethod, k);
  }

  /** The first rule that the scan reaches and that matches path and method
      and has no mimetype or quality 1 is returned at once (after the default-parameter
      and `redirect_to` redirects). */
  lemma ImmediateRuleWins(rules: seq<Rule>, a: Adapter, httpMethod: Method, k: nat)
    requires Reaches(rules, a, httpMethod, k) && Immediate(rules, a, httpMethod, k)
    ensures MatchSpec(rules, a, httpMethod)
         == Accept(rules[k], k, a.probe(k).path.vars, a.probe(k), a.redirectDefaults)
  {
    TerminalDecides(rules, a, httpMethod, k);
  }

  /** A rule without a mimetype that the scan reaches gives the same outcome
      under any Accept header. */
  lemma UnconstrainedRuleIgnoresAccept(rules: seq<Rule>, a: Adapter, httpMethod: Method, k: nat,
                                       other: MimeType -> Quality)
    requires Eligible(rules, a, httpMethod, k) && rules[k].mimetype.None?
    requires Reaches(rules, a, httpMethod, k) && Reaches(rules, a.(accept := other), httpMethod, k)
    ensures MatchSpec(rules, a, httpMethod) == MatchSpec(rules, a.(accept := other), httpMethod)
  {
    ImmediateRuleWins(rules, a, httpMethod, k);
    ImmediateRuleWins(rules, a.(accept := other), httpMethod, k);
  }

  // ---------------------------------------------------------------------
  // What a returned rule must be

  /** A returned rule matched the path and the method, its mimetype (if any)
      has non-zero quality, and it was reached by the scan; if it was
      accepted outright, no redirect applied to it. */
  lemma MatchedIsSound(rules: seq<Rule>, a: Adapter, httpMethod: Method)
    requires MatchSpec(rules, a, httpMethod).Matched?
    ensures var o := MatchSpec(rules, a, httpMethod);
      && o.index < |rules| && o.endpoint == rules[o.index].endpoint
      && a.probe(o.index).path == Match(o.vars)
      && Allows(rules[o.index], httpMethod)
      && (rules[o.index].mimetype.None? || a.accept(rules[o.index].mimetype.value) > 0)
      && Reaches(rules, a, httpMethod, o.index)
      && (Immediate(rules, a, httpMethod, o.index) ==>
            rules[o.index].redirectTo.None? && !(a.redirectDefaults && a.probe(o.index).defaultRedirect.Some?))
  {
    var steps := Steps(rules, a, httpMethod);
    StepsMeaning(rules, a, httpMethod);
    if exists j :: 0 <= j < |steps| && steps[j].Terminal? {
      var f := FirstTerminal(steps);
      assert steps[f] == Examine(rules[f], f, a, httpMethod);
    } else {
      var ds := Deferrals(steps);
      DeferralsInOrder(steps);
      var c := ds[EarliestMax(ds)];
      assert steps[c.index] == Deferred(c);
    }
  }

  /** A rule of quality 0 is never returned. */
  lemma RefusedNeverReturned(rules: seq<Rule>, a: Adapter, httpMethod: Method, k: nat)
    requires Refusing(rules, a, httpMethod, k)
    ensures !(MatchSpec(rules, a, httpMethod).Matched? && MatchSpec(rules, a, httpMethod).index == k)
  {
    if MatchSpec(rules, a, httpMethod).Matched? {
      MatchedIsSound(rules, a, httpMethod);
    }
  }

  /** A rule that matched the path but not the method is never returned. */
  lemma WrongMethodNeverReturned(rules: seq<Rule>, a: Adapter, httpMethod: Method, k: nat)
    requires k < |rules| && !Allows(rules[k], httpMethod)
    ensures !(MatchSpec(rules, a, httpMethod).Matched? && MatchSpec(rules, a, httpMethod).index == k)
  {
    if MatchSpec(rules, a, httpMethod).Matched? {
      MatchedIsSound(rules, a, httpMethod);
    }
  }

  // ---------------------------------------------------------------------
  // After the scan: 405, then the best deferred candidate, then 406, then 404

  /** 405 exactly when the scan completes and the union of the denied
      methods is non-empty (whatever deferred candidates exist); it carries
      that whole union. */
  lemma MethodNotAllowedExactly(rules: seq<Rule>, a: Adapter, httpMethod: Method)
    ensures MatchSpec(rules, a, httpMethod).MethodNotAllowed?
        <==> Reaches(rules, a, httpMethod, |rules|) && DeniedMethods(rules, a, httpMethod) != {}
    ensures MatchSpec(rules, a, httpMethod).MethodNotAllowed? ==>
        MatchSpec(rules, a, httpMethod).allowed == DeniedMethods(rules, a, httpMethod)
  {
    var steps := Steps(rules, a, httpMethod);
    StepsMeaning(rules, a, httpMethod);
    if exists j :: 0 <= j < |steps| && steps[j].Terminal? {
      var f := FirstTerminal(steps);
      assert steps[f] == Examine(rules[f], f, a, httpMethod);
    }
  }

  /** With no rule ending the scan and no 405, the earliest deferred rule of
      highest quality is returned as it is: the default-parameter and
      `redirect_to` redirects are not consulted for it. */
  lemma BestDeferredWins(rules: seq<Rule>, a: Adapter, httpMethod: Method, k: nat)
    requires Reaches(rules, a, httpMethod, |rules|) && DeniedMethods(rules, a, httpMethod) == {}
    requires BestDeferred(rules, a, httpMethod, k)
    ensures MatchSpec(rules, a, httpMethod) == Matched(k, rules[k].endpoint, a.probe(k).path.vars)
  {
    var steps := Steps(rules, a, httpMethod);
    StepsMeaning(rules, a, httpMethod);
    DeferralsInOrder(steps);
    var ds := Deferrals(steps);
    assert steps[k].Deferred?;
    assert ds != [];
    var p := EarliestMax(ds);
    var w := ds[p].index;
    assert steps[w] == Deferred(ds[p]);
    assert Deferring(rules, a, httpMethod, w);
    var pk :| 0 <= pk < |ds| && ds[pk] == steps[k].c;
    assert ds[pk].index == k;
  }

  /** Conversely, a returned deferred rule is the earliest of highest
      quality, and no 405 was due. */
  lemma DeferredWinnerIsBest(rules: seq<Rule>, a: Adapter, httpMethod: Method, k: nat)
    requires Deferring(rules, a, httpMethod, k)
    requires MatchSpec(rules, a, httpMethod).Matched? && MatchSpec(rules, a, httpMethod).index == k
    ensures Reaches(rules, a, httpMethod, |rules|) && DeniedMethods(rules, a, httpMethod) == {}
    ensures BestDeferred(rules, a, httpMethod, k)
  {
    var steps := Steps(rules, a, httpMethod);
    StepsMeaning(rules, a, httpMethod);
    MethodNotAllowedExactly(rules, a, httpMethod);
    assert !exists j :: 0 <= j < |steps| && steps[j].Terminal?;
    DeferralsInOrder(steps);
    var ds := Deferrals(steps);
    var p := EarliestMax(ds);
    assert steps[ds[p].index] == Deferred(ds[p]);
    forall j | 0 <= j < |rules| && Deferring(rules, a, httpMethod, j)
      ensures a.accept(rules[j].mimetype.value) <= a.accept(rules[k].mimetype.value)
      ensures j < k ==> a.accept(rules[j].mimetype.value) < a.accept(rules[k].mimetype.value)
    {
      assert steps[j].Deferred?;
      var pj :| 0 <= pj < |ds| && ds[pj] == steps[j].c;
      assert ds[pj].index == j;
      if j < k { assert pj < p; }
    }
  }

  /** 406 exactly when the scan completes with no 405 and no deferred rule,
      and some eligible rule was refused. */
  lemma NotAcceptableExactly(rules: seq<Rule>, a: Adapter, httpMethod: Method)
    ensures MatchSpec(rules, a, httpMethod) == NotAcceptable
        <==> && Reaches(rules, a, httpMethod, |rules|)
             && DeniedMethods(rules, a, httpMethod) == {}
             && (forall j :: 0 <= j < |rules| ==> !Deferring(rules, a, httpMethod, j))
             && (exists j :: 0 <= j < |rules| && Refusing(rules, a, httpMethod, j))
  {
    var steps := Steps(rules, a, httpMethod);
    StepsMeaning(rules, a, httpMethod);
    if exists j :: 0 <= j < |steps| && steps[j].Terminal? {
      var f := FirstTerminal(steps);
      assert steps[f] == Examine(rules[f], f, a, httpMethod);
    }
  }

  /** 404 exactly when the scan completes and no rule was denied its method
      (with a non-empty method set), deferred or refused. */
  lemma NotFoundExactly(rules: seq<Rule>, a: Adapter, httpMethod: Method)
    ensures MatchSpec(rules, a, httpMethod) == NotFound
        <==> && Reaches(rules, a, httpMethod, |rules|)
             && DeniedMethods(rules, a, httpMethod) == {}
             && (forall j :: 0 <= j < |rules| ==> !Deferring(rules, a, httpMethod, j))
             && (forall j :: 0 <= j < |rules| ==> !Refusing(rules, a, httpMethod, j))
  {
    var steps := Steps(rules, a, httpMethod);
    StepsMeaning(rules, a, httpMethod);
    if exists j :: 0 <= j < |steps| && steps[j].Terminal? {
      var f := FirstTerminal(steps);
      assert steps[f] == Examine(rules[f], f, a, httpMethod);
    }
  }
}

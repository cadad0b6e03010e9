/** The data model of the MIME-aware router and the meaning of one call to
    `MapAdapter.match`, stated declaratively: the first rule that ends the
    scan decides; otherwise 405, then the best deferred candidate, then 406,
    then 404. The imperative single-pass matcher (module Matcher) is proved
    to compute exactly this. */
module Routing {
  import opened Wrappers

  type Method = string
  type MimeType = string
  type Endpoint = string
  type Url = string
  /** Variables captured by a path match (werkzeug's `rv`). */
  type Vars = map<string, string>

  /** An Accept quality in thousandths: 0 is q=0 (refused), 1000 is q=1. A
      q-value has at most three decimals, so thousandths are exact. */
  const FullQuality := 1000
  type Quality = q: int | 0 <= q <= FullQuality

  /** A routing rule as this library extends it: `mimetype` is the field the
      subclass adds; `methods == None` means any method is allowed;
      `redirectTo` is the rule's `redirect_to` (a template or a callable,
      opaque here). */
  datatype Rule = Rule(
    methods: Option<set<Method>>,
    mimetype: Option<MimeType>,
    endpoint: Endpoint,
    redirectTo: Option<string>)

  /** What werkzeug's `rule.match(path)` does for one rule: return None,
      return the captured values, raise RequestSlash, or raise
      RequestAliasRedirect with the matched values. */
  datatype PathMatch = NoMatch | Match(vars: Vars) | NeedSlash | AliasMatch(values: Vars)

  /** werkzeug's answers for one rule and this request: its path match and
      what `get_default_redirect` would return for it. */
  datatype Probe = Probe(path: PathMatch, defaultRedirect: Option<Url>)

  /** One request bound to the rule table (the MapAdapter): the path, the
      adapter's default method, the parsed Accept header as a quality
      function, the map's `redirect_defaults` flag, and werkzeug's probe of
      the rule at each table position. */
  datatype Adapter = Adapter(
    pathInfo: string,
    defaultMethod: Method,
    accept: MimeType -> Quality,
    redirectDefaults: bool,
    probe: nat -> Probe)

  /** Where a RequestRedirect points. URL construction is left to werkzeug;
      each target carries what its URL is built from. */
  datatype RedirectTarget =
    | AppendSlash(path: string)              // the request path with "/" appended
    | ToAlias(endpoint: Endpoint, values: Vars)
    | ToDefaults(url: Url)                   // get_default_redirect's URL
    | ToTarget(redirectTo: string, vars: Vars) // redirect_to filled with the variables

  /** The closed set of results of one match. `Matched` carries the rule's
      table position (what `return_rule=True` returns) and its endpoint. */
  datatype Outcome =
    | Matched(index: nat, endpoint: Endpoint, vars: Vars)
    | Redirect(target: RedirectTarget)
    | MethodNotAllowed(allowed: set<Method>)
    | NotAcceptable
    | NotFound

  /** A deferred entry `(q, rule, rv)` of `candidates_by_mimetype`; `index`
      is the rule's table position. */
  datatype Candidate = Candidate(q: Quality, index: nat, rule: Rule, vars: Vars)

  /** What examining one rule contributes to the scan. */
  datatype Step =
    | Skip                              // the path did not match
    | Terminal(outcome: Outcome)        // the scan stops with this outcome
    | WrongMethod(methods: set<Method>) // path matched, method did not
    | Refused                           // the Accept quality of its mimetype is 0
    | Deferred(c: Candidate)            // fractional quality: decided after the scan

  // ---------------------------------------------------------------------
  // The request method: (method or default_method).upper()

  predicate IsLowerAscii(c: char) { 'a' <= c <= 'z' }

  function UpperChar(c: char): (u: char)
    ensures !IsLowerAscii(u)
    ensures IsLowerAscii(c) ==> u as int == c as int - 32
    ensures !IsLowerAscii(c) ==> u == c
  {
    if IsLowerAscii(c) then (c as int - 32) as char else c
  }

  /** ASCII upper-casing of an HTTP method name. */
  function Upper(s: string): (u: string)
    ensures |u| == |s|
    ensures forall i :: 0 <= i < |u| ==> !IsLowerAscii(u[i])
    ensures forall i :: 0 <= i < |u| ==> u[i] == UpperChar(s[i])
  {
    if s == [] then [] else [UpperChar(s[0])] + Upper(s[1..])
  }

  /** Upper-casing an upper-cased name changes nothing. */
  lemma {:induction false} UpperIdempotent(s: string)
    ensures Upper(Upper(s)) == Upper(s)
  {
    if s != [] {
      UpperIdempotent(s[1..]);
    }
  }

  /** The effective method: the given one unless it is None or empty (both
      falsy in Python), else the adapter's default; then upper-cased. */
  function ResolveMethod(given: Option<string>, default: Method): (m: Method)
    ensures given.Some? && given.value != [] ==> m == Upper(given.value)
    ensures given.None? || given.value == [] ==> m == Upper(default)
    ensures forall i :: 0 <= i < |m| ==> !IsLowerAscii(m[i])
  {
    if given.Some? && given.value != [] then Upper(given.value) else Upper(default)
  }

  /** Passing the effective method back in as `method` resolves to the same
      method: resolution is a fixed point. */
  lemma ResolveMethodStable(given: Option<string>, default: Method)
    ensures ResolveMethod(Some(ResolveMethod(given, default)), default) == ResolveMethod(given, default)
  {
    var m := ResolveMethod(given, default);
    if given.Some? && given.value != [] {
      UpperIdempotent(given.value);
    } else {
      UpperIdempotent(default);
    }
  }

  // ---------------------------------------------------------------------
  // One rule

  /** The rule accepts the request method (`methods is None` or it is in). */
  predicate Allows(rule: Rule, httpMethod: Method) {
    rule.methods.None? || httpMethod in rule.methods.value
  }

  /** The end of the loop body once a rule is accepted (no mimetype, or
      quality 1): default-parameter redirect, then `redirect_to`, then the
      match itself. */
  function Accept(rule: Rule, index: nat, rv: Vars, p: Probe, redirectDefaults: bool): (o: Outcome)
    ensures redirectDefaults && p.defaultRedirect.Some? ==> o == Redirect(ToDefaults(p.defaultRedirect.value))
    ensures !(redirectDefaults && p.defaultRedirect.Some?) && rule.redirectTo.Some? ==>
      o == Redirect(ToTarget(rule.redirectTo.value, rv))
    ensures o.Matched? <==> !(redirectDefaults && p.defaultRedirect.Some?) && rule.redirectTo.None?
    ensures o.Matched? ==> o == Matched(index, rule.endpoint, rv)
    ensures o.Redirect? && o.target.ToTarget? ==> o.target.vars == rv
  {
    if redirectDefaults && p.defaultRedirect.Some? then Redirect(ToDefaults(p.defaultRedirect.value))
    else if rule.redirectTo.Some? then Redirect(ToTarget(rule.redirectTo.value, rv))
    else Matched(index, rule.endpoint, rv)
  }

  /** The loop body for the rule at table position `i`. */
  function Examine(rule: Rule, i: nat, a: Adapter, httpMethod: Method): (s: Step)
    ensures s.Skip? <==> a.probe(i).path.NoMatch?
    ensures s.Terminal? <==>
      || a.probe(i).path.NeedSlash? || a.probe(i).path.AliasMatch?
      || (&& a.probe(i).path.Match? && Allows(rule, httpMethod)
          && (rule.mimetype.None? || a.accept(rule.mimetype.value) == FullQuality))
    ensures s.WrongMethod? <==> a.probe(i).path.Match? && !Allows(rule, httpMethod)
    ensures s.Refused? <==>
      a.probe(i).path.Match? && Allows(rule, httpMethod) && rule.mimetype.Some? && a.accept(rule.mimetype.value) == 0
    ensures s.Deferred? ==>
      && a.probe(i).path.Match? && rule.mimetype.Some? && 0 < a.accept(rule.mimetype.value) < FullQuality
      && s.c == Candidate(a.accept(rule.mimetype.value), i, rule, a.probe(i).path.vars)
  {
    var p := a.probe(i);
    match p.path
    case NeedSlash => Terminal(Redirect(AppendSlash(a.pathInfo + "/")))
    case AliasMatch(values) => Terminal(Redirect(ToAlias(rule.endpoint, values)))
    case NoMatch => Skip
    case Match(rv) =>
      if !Allows(rule, httpMethod) then WrongMethod(rule.methods.value)
      else if rule.mimetype.Some? && a.accept(rule.mimetype.value) == 0 then Refused
      else if rule.mimetype.Some? && a.accept(rule.mimetype.value) < FullQuality then
        Deferred(Candidate(a.accept(rule.mimetype.value), i, rule, rv))
      else Terminal(Accept(rule, i, rv, p, a.redirectDefaults))
  }

  /** The steps of all rules, in table order. */
  function Steps(rules: seq<Rule>, a: Adapter, httpMethod: Method): (s: seq<Step>)
    ensures |s| == |rules|
    ensures forall j :: 0 <= j < |rules| ==> s[j] == Examine(rules[j], j, a, httpMethod)
  {
    seq(|rules|, j requires 0 <= j < |rules| => Examine(rules[j], j, a, httpMethod))
  }

  // ---------------------------------------------------------------------
  // Aggregating the steps

  /** The first step that ends the scan. */
  function FirstTerminal(steps: seq<Step>): (k: nat)
    requires exists j :: 0 <= j < |steps| && steps[j].Terminal?
    ensures k < |steps| && steps[k].Terminal?
    ensures forall j :: 0 <= j < k ==> !steps[j].Terminal?
  {
    if steps[0].Terminal? then 0 else 1 + FirstTerminal(steps[1..])
  }

  /** The union of the method sets of the rules whose method did not match
      (`have_match_for`). */
  function Denied(steps: seq<Step>): (r: set<Method>)
    ensures forall j :: 0 <= j < |steps| && steps[j].WrongMethod? ==> steps[j].methods <= r
    ensures r == {} <==> forall j :: 0 <= j < |steps| && steps[j].WrongMethod? ==> steps[j].methods == {}
  {
    set j, m | 0 <= j < |steps| && steps[j].WrongMethod? && m in steps[j].methods :: m
  }

  /** The deferred candidates in table order (`candidates_by_mimetype`). */
  function Deferrals(steps: seq<Step>): (r: seq<Candidate>)
    ensures |r| <= |steps|
    ensures r == [] <==> forall j :: 0 <= j < |steps| ==> !steps[j].Deferred?
  {
    if steps == [] then []
    else
      var last := steps[|steps| - 1];
      Deferrals(steps[..|steps| - 1]) + (if last.Deferred? then [last.c] else [])
  }

  /** The position of the earliest candidate of maximum quality. */
  function EarliestMax(cs: seq<Candidate>): (k: nat)
    requires cs != []
    ensures k < |cs|
    ensures forall j :: 0 <= j < |cs| ==> cs[j].q <= cs[k].q
    ensures forall j :: 0 <= j < k ==> cs[j].q < cs[k].q
  {
    if |cs| == 1 then 0
    else
      var k := EarliestMax(cs[..|cs| - 1]);
      if cs[|cs| - 1].q > cs[k].q then |cs| - 1 else k
  }

  /** The meaning of one call of `match`: the first rule that ends the scan
      decides; if none does, a non-empty 405 set wins, then the earliest
      deferred candidate of highest quality, then 406 if some rule was
      refused, else 404. */
  function MatchSpec(rules: seq<Rule>, a: Adapter, httpMethod: Method): (r: Outcome)
    ensures r.MethodNotAllowed? ==> r.allowed != {}
    ensures r.MethodNotAllowed? || r.NotAcceptable? || r.NotFound? ==>
      forall j :: 0 <= j < |rules| ==> !Examine(rules[j], j, a, httpMethod).Terminal?
  {
    var steps := Steps(rules, a, httpMethod);
    if exists j :: 0 <= j < |steps| && steps[j].Terminal? then
      steps[FirstTerminal(steps)].outcome
    else if Denied(steps) != {} then
      MethodNotAllowed(Denied(steps))
    else if Deferrals(steps) != [] then
      var c := Deferrals(steps)[EarliestMax(Deferrals(steps))];
      Matched(c.index, c.rule.endpoint, c.vars)
    else if exists j :: 0 <= j < |steps| && steps[j].Refused? then
      NotAcceptable
    else
      NotFound
  }

  // ---------------------------------------------------------------------
  // How the aggregates grow by one step (used by the single-pass matcher)

  lemma DeniedSnoc(s: seq<Step>, x: Step)
    ensures Denied(s + [x]) == Denied(s) + (if x.WrongMethod? then x.methods else {})
  {
    var t := s + [x];
    forall m | m in Denied(t) ensures m in Denied(s) + (if x.WrongMethod? then x.methods else {}) {
      var j :| 0 <= j < |t| && t[j].WrongMethod? && m in t[j].methods;
      if j < |s| { assert s[j] == t[j]; }
    }
    forall m | m in Denied(s) ensures m in Denied(t) {
      var j :| 0 <= j < |s| && s[j].WrongMethod? && m in s[j].methods;
      assert t[j] == s[j];
    }
    if x.WrongMethod? {
      forall m | m in x.methods ensures m in Denied(t) {
        assert t[|s|] == x;
      }
    }
  }

  lemma DeferralsSnoc(s: seq<Step>, x: Step)
    ensures Deferrals(s + [x]) == Deferrals(s) + (if x.Deferred? then [x.c] else [])
  {
    assert (s + [x])[..|s|] == s;
  }
}

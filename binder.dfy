/** `Mime.__call__`: the decorator that finds the endpoint a view function
    was registered under and sets `mimetype` on every rule of that
    endpoint, in place. */
module Binder {
  import opened Wrappers
  import opened Routing
  import MatchFacts

  /** A view function's identity; Python compares the functions by `==`,
      which for functions is identity. */
  type Handler = nat

  /** One item of `app.view_functions`, in the dict's iteration order. */
  datatype View = View(endpoint: Endpoint, handler: Handler)

  datatype BindError =
    | NoEndpoint              // no endpoint maps to the view: 'any endpoint are not found.'
    | NoRules(endpoint: Endpoint) // werkzeug's `iter_rules(endpoint)` knows no rule of the endpoint

  /** The endpoint the lookup loop is left with: it has no `break`, so the
      LAST endpoint mapped to the handler wins. */
  function LastEndpoint(views: seq<View>, handler: Handler): (r: Option<Endpoint>)
    ensures r.Some? ==> View(r.value, handler) in views
  {
    if views == [] then None
    else if views[|views| - 1].handler == handler then Some(views[|views| - 1].endpoint)
    else LastEndpoint(views[..|views| - 1], handler)
  }

  /** No endpoint is found exactly when no view maps to the handler. */
  lemma {:induction false} LastEndpointNone(views: seq<View>, handler: Handler)
    ensures LastEndpoint(views, handler).None? <==> forall i :: 0 <= i < |views| ==> views[i].handler != handler
  {
    if views != [] {
      var n := |views| - 1;
      LastEndpointNone(views[..n], handler);
      assert forall i :: 0 <= i < n ==> views[..n][i] == views[i];
    }
  }

  /** A found endpoint is that of the last view mapped to the handler. */
  lemma {:induction false} LastEndpointIsLast(views: seq<View>, handler: Handler)
    requires LastEndpoint(views, handler).Some?
    ensures exists k :: 0 <= k < |views| && views[k] == View(LastEndpoint(views, handler).value, handler)
                        && forall j :: k < j < |views| ==> views[j].handler != handler
  {
    var n := |views| - 1;
    var e := LastEndpoint(views, handler).value;
    if views[n].handler == handler {
      assert views[n] == View(e, handler);
    } else {
      var p := views[..n];
      LastEndpointIsLast(p, handler);
      var k :| 0 <= k < n && p[k] == View(e, handler) && forall j :: k < j < n ==> p[j].handler != handler;
      assert views[k] == View(e, handler);
      assert forall j :: k < j < |views| ==> views[j].handler != handler by {
        forall j | k < j < |views| ensures views[j].handler != handler {
          if j < n { assert views[j] == p[j]; }
        }
      }
    }
  }

  /** The lookup loop over `view_functions.items()`. */
  method FindEndpoint(views: seq<View>, handler: Handler) returns (endpoint: Option<Endpoint>)
    ensures endpoint == LastEndpoint(views, handler)
  {
    endpoint := None;
    for i := 0 to |views|
      invariant endpoint == LastEndpoint(views[..i], handler)
    {
      assert views[..i + 1][..i] == views[..i];
      if views[i].handler == handler {
        endpoint := Some(views[i].endpoint);
      }
    }
    assert views[..|views|] == views;
  }

  /** The table after binding: the rules of `endpoint` carry `mimetype`,
      all other rules are as they were. */
  function Bound(rules: seq<Rule>, endpoint: Endpoint, mimetype: MimeType): (r: seq<Rule>)
    ensures |r| == |rules|
    ensures forall i :: 0 <= i < |rules| ==> r[i].endpoint == rules[i].endpoint
  {
    seq(|rules|, i requires 0 <= i < |rules| =>
      if rules[i].endpoint == endpoint then rules[i].(mimetype := Some(mimetype)) else rules[i])
  }

  predicate HasRules(rules: seq<Rule>, endpoint: Endpoint) {
    exists i :: 0 <= i < |rules| && rules[i].endpoint == endpoint
  }

  /** Decorating `handler` with `mimetype`: find its endpoint, fail if there
      is none or the endpoint has no rules, else set the mimetype on each of
      the endpoint's rules and leave every other rule alone. */
  method BindMimetype(rules: array<Rule>, views: seq<View>, handler: Handler, mimetype: MimeType)
    returns (r: Result<Endpoint, BindError>)
    modifies rules
    ensures LastEndpoint(views, handler).None? ==> r == Failure(NoEndpoint)
    ensures LastEndpoint(views, handler).Some? ==>
      r == (if HasRules(old(rules[..]), LastEndpoint(views, handler).value)
            then Success(LastEndpoint(views, handler).value)
            else Failure(NoRules(LastEndpoint(views, handler).value)))
    ensures r.Failure? ==> rules[..] == old(rules[..])
    ensures r.Success? ==> rules[..] == Bound(old(rules[..]), r.value, mimetype)
  {
    var found := FindEndpoint(views, handler);
    if found.None? {
      return Failure(NoEndpoint);
    }
    var endpoint := found.value;
    if !exists i :: 0 <= i < rules.Length && rules[i].endpoint == endpoint {
      return Failure(NoRules(endpoint));
    }
    ghost var before := rules[..];
    for i := 0 to rules.Length
      invariant forall j :: 0 <= j < i ==> rules[j] == Bound(before, endpoint, mimetype)[j]
      invariant forall j :: i <= j < rules.Length ==> rules[j] == before[j]
    {
      if rules[i].endpoint == endpoint {
        rules[i] := rules[i].(mimetype := Some(mimetype));
      }
    }
    assert rules[..] == Bound(before, endpoint, mimetype);
    return Success(endpoint);
  }

  // ---------------------------------------------------------------------
  // Properties of binding

  /** Every rule of the endpoint carries the mimetype afterwards; every rule
      keeps its endpoint, methods and redirect, and rules of other
      endpoints keep their mimetype. */
  lemma BindingBreadth(rules: seq<Rule>, endpoint: Endpoint, mimetype: MimeType)
    ensures |Bound(rules, endpoint, mimetype)| == |rules|
    ensures forall i :: 0 <= i < |rules| ==>
      var b := Bound(rules, endpoint, mimetype)[i];
      && b.endpoint == rules[i].endpoint && b.methods == rules[i].methods && b.redirectTo == rules[i].redirectTo
      && (rules[i].endpoint == endpoint ==> b.mimetype == Some(mimetype))
      && (rules[i].endpoint != endpoint ==> b == rules[i])
  {
  }

  /** A second decoration of the same endpoint, a separate decorator call on
      the original view function, overrides the first. */
  lemma LastBindingWins(rules: seq<Rule>, endpoint: Endpoint, first: MimeType, second: MimeType)
    ensures Bound(Bound(rules, endpoint, first), endpoint, second) == Bound(rules, endpoint, second)
  {
  }

  /** Decorating two different endpoints gives the same table in either order. */
  lemma BindingsCommute(rules: seq<Rule>, e1: Endpoint, m1: MimeType, e2: Endpoint, m2: MimeType)
    requires e1 != e2
    ensures Bound(Bound(rules, e1, m1), e2, m2) == Bound(Bound(rules, e2, m2), e1, m1)
  {
  }

  /** Once an endpoint is bound to a mimetype the client refuses (quality
      0), no request is answered by that endpoint. */
  lemma RefusedBindingNeverServes(rules: seq<Rule>, endpoint: Endpoint, mimetype: MimeType,
                                  a: Adapter, httpMethod: Method)
    requires a.accept(mimetype) == 0
    ensures var o := MatchSpec(Bound(rules, endpoint, mimetype), a, httpMethod);
      !(o.Matched? && o.endpoint == endpoint)
  {
    var bound := Bound(rules, endpoint, mimetype);
    var o := MatchSpec(bound, a, httpMethod);
    if o.Matched? {
      MatchFacts.MatchedIsSound(bound, a, httpMethod);
    }
  }
}

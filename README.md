# flask-mime routing core in Dafny

flask-mime lets a Flask application register several routes for the same
path and method that differ only in the MIME type they produce. A request is
then sent to the rule whose MIME type the client's `Accept` header rates
highest. The library does this in two places:

- `MapAdapter.match` walks the rule table once, in table order. A rule can
  end the scan at once: with a trailing-slash redirect, an alias redirect, a
  default-parameter redirect, a `redirect_to` redirect, or a match when the
  rule has no mimetype or quality 1. Otherwise the rule adds to one of three
  accumulators: the methods of rules whose path matched but whose method did
  not, the deferred candidates of fractional quality, and a flag for rules
  of quality 0. After the scan the first of these applies: 405, then the
  best deferred candidate, then 406, then 404.
- The `Mime` decorator (`Mime.__call__`) looks up the endpoint of a view
  function and sets `mimetype` on every rule registered under it.

The project has seven modules:

- `Wrappers` (wrappers.dfy): Option and Result.
- `Routing` (routing.dfy): the data model and the per-rule step `Examine`
  (the loop body). It also holds `MatchSpec`, a declarative statement of one
  match, built from the first rule that ends the scan (`FirstTerminal`),
  the union of denied methods (`Denied`), the deferred candidates in table
  order (`Deferrals`) and the earliest candidate of highest quality
  (`EarliestMax`).
- `StableSort` (candidates.dfy): Python's `sorted(..., key=q,
  reverse=True)` as a stable insertion sort. It is proved to return a
  descending permutation whose head is the earliest candidate of highest
  quality.
- `Matcher` (matcher.dfy): the single-pass method `Match`, with the three
  accumulators, `continue`, early `return`, and the sort after the loop. It
  is proved to compute exactly `MatchSpec`.
- `MatchFacts` (match_facts.dfy): the properties of a match, stated over
  the rules themselves: which rules end the scan (`TerminalMeaning`), what
  each outcome means, and in both directions for the post-scan outcomes.
- `Binder` (binder.dfy): the decorator. A loop finds the endpoint, and a
  method updates an `array<Rule>` in place.
- `Scenarios` (scenarios.dfy): the test suite's scenarios over the table
  its `setUp` registers.

Abstractions:

- werkzeug's `rule.match(path)` and `get_default_redirect` are foreign code.
  They become `Adapter.probe(i)`: werkzeug's answer for the rule at table
  position `i`. The path part is `NoMatch`, `Match(vars)`, `NeedSlash` or
  `AliasMatch(values)`; the default redirect is an optional URL.
- The parsed Accept header (`MIMEAccept`) is a total function from mimetype
  to quality. Qualities are in thousandths, 0..1000. This is exact for q-values
  of at most three decimals, which is all that section 5.3.1 of RFC 7231
  allows; a header with longer decimals is outside the model. The
  model therefore always has an Accept map.
- Raised exceptions and return values become the closed `Outcome` type.
  `Matched` carries the rule's table position (what `return_rule=True`
  returns) and its endpoint (what is returned otherwise). Redirect URLs are
  opaque `RedirectTarget` values that record what werkzeug builds the URL
  from.
- Flask's view-function registry is a sequence of (endpoint, handler)
  pairs in dict iteration order. A handler is an opaque identity.

Where the intended design and the code differ, the model follows the
code:

- The deferred winner is returned directly. The default-parameter and
  `redirect_to` checks are not applied to it (flask_mime.py:175-183).
  `MatchFacts.BestDeferredWins` proves `Matched` even when the rule has a
  `redirect_to`.
- Ties among deferred candidates go to the earliest registered one. The
  reason is that Python's `sorted` is stable, also with `reverse=True`.
  `StableSort.SortedDescHead` proves this.
- A 405 needs a non-empty union of denied methods, not just a denied rule.
  A path-matching rule whose method set is empty adds nothing and so cannot
  cause a 405 (`MatchFacts.MethodNotAllowedExactly`).
- An empty Accept header is meant to accept everything. The code only
  asks `MIMEAccept` for the quality, so the model holds for any quality
  function.
- In the table the test suite registers, Flask adds OPTIONS to
  `methods=['POST']`. A GET on `/post` is therefore a 405 carrying
  {POST, OPTIONS}, not only {POST} (`Scenarios.GetOnPostOnly`).
- werkzeug's `iter_rules(endpoint)` looks the endpoint up in a dict, so it
  raises when no rule has that endpoint. `Binder.BindMimetype` models this
  as the error `NoRules`, next to the source's own "no endpoint" error.

## Model

| member | source | states |
|---|---|---|
| `Routing.UpperChar` | flask_mime.py:110 | an ASCII lower-case letter becomes its upper-case form; every other character is kept |
| `Routing.Upper` | flask_mime.py:110 | `.upper()` keeps the length and upper-cases each character on its own (`UpperChar` at every position), so no ASCII lower-case letter is left |
| `Routing.UpperIdempotent` | flask_mime.py:110 | upper-casing twice gives the same result as upper-casing once |
| `Routing.ResolveMethod` | flask_mime.py:110 | the effective method is the upper-cased given one unless it is None or empty (both falsy), otherwise the upper-cased adapter default |
| `Routing.ResolveMethodStable` | flask_mime.py:110 | resolution is a fixed point: passing an effective method back in as `method` resolves to itself |
| `Routing.Accept` | flask_mime.py:146-171 | checks in source order: with `redirect_defaults` on and a default redirect, that redirect; otherwise, with `redirect_to`, a redirect to it filled with the captured variables; otherwise `Matched(index, endpoint, rv)` |
| `Routing.Examine` | flask_mime.py:119-171 | definition of one loop iteration. Its contract states when each step arises: skip exactly on no path match, end the scan exactly on a slash or alias hit or an accepted rule, denial exactly on a wrong method, refusal exactly at quality 0, and a deferral carries the rule, its position, quality strictly between 0 and 1 and the captured variables. `MatchFacts.TerminalMeaning` and `MatchFacts.StepsMeaning` read these steps back over the rules |
| `Routing.Denied` | flask_mime.py:115-134 | definition of the 405 set: it contains the methods of every denied step, and it is empty exactly when every denied step has an empty method set. `Routing.DeniedSnoc` and `MatchFacts.DeniedMeaning` give its meaning during and after the scan |
| `Routing.Deferrals` | flask_mime.py:116-142 | definition of the candidate list: never longer than the steps, and empty exactly when no step defers. `Routing.DeferralsSnoc` and `MatchFacts.DeferralsInOrder` give its contents and order |
| `Routing.MatchSpec` | flask_mime.py:118-187 | the declarative definition of one match that `Matcher.Match` is proved to compute. Its contract states that a 405 carries a non-empty set and that 405, 406 and 404 arise only when no rule ends the scan. The `MatchFacts` lemmas (`TerminalDecides` through `NotFoundExactly`) characterise each outcome |
| `Routing.FirstTerminal` | flask_mime.py:118-171 | the position of the first rule that ends the scan: that rule ends it and no earlier rule does |
| `Routing.EarliestMax` | flask_mime.py:175-179 | picks a candidate that no other candidate exceeds in quality, and every earlier candidate has strictly lower quality |
| `Routing.DeniedSnoc` | flask_mime.py:132-134 | `have_match_for.update` grows the 405 set by exactly the methods of the rule just denied |
| `Routing.DeferralsSnoc` | flask_mime.py:140-142 | `candidates_by_mimetype.append` adds exactly the candidate just deferred, at the end |
| `StableSort.InsertDesc` | flask_mime.py:177-179 | inserting a candidate adds one element; the new head is the old head if its quality is at least the new one's, otherwise the new candidate |
| `StableSort.SortedDesc` | flask_mime.py:177-179 | sorting keeps the number of candidates |
| `StableSort.InsertDescPermutes` | flask_mime.py:177-179 | insertion keeps exactly the elements plus the inserted one |
| `StableSort.InsertDescOrdered` | flask_mime.py:177-179 | insertion keeps a descending list descending |
| `StableSort.SortedDescSound` | flask_mime.py:177-179 | `sorted(..., reverse=True)` returns a permutation of its input, in descending order of quality |
| `StableSort.SortedDescHead` | flask_mime.py:177-179 | the head of the sorted list is the earliest candidate of maximum quality, so ties go to the first registered |
| `Matcher.Match` | flask_mime.py:101-187 | the single pass with its three accumulators, early exits and post-loop decision returns exactly the declarative outcome `MatchSpec` |
| `MatchFacts.TerminalMeaning` | flask_mime.py:119-171 | a rule ends the scan exactly when werkzeug reports a missing slash or an alias for it, or it matches path and method and has no mimetype or quality 1 |
| `MatchFacts.DeferralsInOrder` | flask_mime.py:140-142 | the candidate list holds every deferred rule, each at its table position, in table order |
| `MatchFacts.StepsMeaning` | flask_mime.py:118-142 | the accumulators of the scan are the union of the denied rules' methods, non-empty deferrals exactly when some rule defers, and the mismatch flag exactly when some rule is refused |
| `MatchFacts.TerminalDecides` | flask_mime.py:118-171 | when the scan reaches a rule that ends it, the outcome is that rule's |
| `MatchFacts.SlashRedirects` | flask_mime.py:121-124 | a missing trailing slash reported by a rule the scan reaches redirects to the path with "/" appended |
| `MatchFacts.AliasRedirects` | flask_mime.py:125-129 | an alias hit on a rule the scan reaches redirects to that rule's endpoint with the matched values |
| `MatchFacts.LaterRulesIrrelevant` | flask_mime.py:118-171 | once a rule ends the scan, replacing every later rule, and werkzeug's answers for the later positions, by anything leaves the outcome unchanged |
| `MatchFacts.ImmediateRuleWins` | flask_mime.py:132-171 | the first rule that the scan reaches and that matches path and method and has no mimetype or quality 1 decides the outcome (its match or its redirect) |
| `MatchFacts.UnconstrainedRuleIgnoresAccept` | flask_mime.py:135-171 | a rule without a mimetype that the scan reaches gives the same outcome under any Accept header |
| `MatchFacts.MatchedIsSound` | flask_mime.py:130-183 | a returned rule matched the path and the method, its mimetype (if any) has non-zero quality, it was reached, and when it was accepted outright no redirect applied to it |
| `MatchFacts.RefusedNeverReturned` | flask_mime.py:137-139 | a rule whose mimetype has quality 0 is never returned |
| `MatchFacts.WrongMethodNeverReturned` | flask_mime.py:132-134 | a rule whose method set excludes the request method is never returned |
| `MatchFacts.MethodNotAllowedExactly` | flask_mime.py:173-174 | 405 exactly when no rule ends the scan and the union of the denied rules' methods is non-empty, whatever deferred candidates exist; the 405 carries that whole union |
| `MatchFacts.BestDeferredWins` | flask_mime.py:175-183 | with no early exit and no 405, the earliest deferred rule of highest quality is returned as a plain match, without redirect checks |
| `MatchFacts.DeferredWinnerIsBest` | flask_mime.py:175-183 | conversely, a returned deferred rule is the earliest of highest quality, and no early exit or 405 applied |
| `MatchFacts.NotAcceptableExactly` | flask_mime.py:184-185 | 406 exactly when the scan completes with no 405 and no deferred rule, and some eligible rule was refused |
| `MatchFacts.NotFoundExactly` | flask_mime.py:187 | 404 exactly when the scan completes with no 405, no deferred rule and no refused rule |
| `Binder.LastEndpoint` | flask_mime.py:204-207 | definition of the endpoint lookup: a found endpoint maps to the handler. `Binder.LastEndpointNone` and `Binder.LastEndpointIsLast` state when none is found and that the last mapping view wins |
| `Binder.LastEndpointNone` | flask_mime.py:204-209 | no endpoint is found exactly when no view maps to the handler |
| `Binder.LastEndpointIsLast` | flask_mime.py:204-207 | a found endpoint belongs to the last view, in iteration order, that maps to the handler |
| `Binder.FindEndpoint` | flask_mime.py:204-207 | the lookup loop, which has no `break`, ends with the last endpoint mapped to the view function |
| `Binder.BindMimetype` | flask_mime.py:202-212 | fails, changing nothing, when no endpoint maps to the view or the endpoint has no rules; otherwise sets the mimetype on exactly the endpoint's rules, in place |
| `Binder.Bound` | flask_mime.py:211-212 | definition of the table after binding: it has the same length and every rule keeps its endpoint. `Binder.BindingBreadth` states the full effect and `Binder.BindMimetype` is proved to produce it |
| `Binder.BindingBreadth` | flask_mime.py:211-212 | after binding, every rule of the endpoint has the mimetype; rules keep their endpoint, methods and redirect; rules of other endpoints are unchanged |
| `Binder.LastBindingWins` | flask_mime.py:211-212 | two separate decorator calls on the original view function for the same endpoint leave the second mimetype |
| `Binder.BindingsCommute` | flask_mime.py:211-212 | decorating two different endpoints gives the same table in either order |
| `Binder.RefusedBindingNeverServes` | flask_mime.py:212 | once an endpoint is bound to a mimetype of quality 0, no request is answered by that endpoint |
| `Scenarios.SetUpBindsMimetypes` | test_mime.py:15-67 | the decorators of the test set-up, applied in order, turn the registered table into the one the test cases use |
| `Scenarios.BasicHtml` | test_mime.py:81-83 | `Accept: text/html` on /path selects path_html |
| `Scenarios.BasicJson` | test_mime.py:85-86 | `Accept: application/json` on /path selects path_json |
| `Scenarios.PlainIsNotAcceptable` | test_mime.py:88-90 | `Accept: text/plain` on /path gives 406 |
| `Scenarios.ReverseHtml` | test_mime.py:99-101 | on /reverse, where json is registered first, `Accept: text/html` selects reverse_html |
| `Scenarios.QualityDecides` | test_mime.py:106-109 | `text/html, text/plain;q=0.9, application/json;q=0.5` on /q selects q_text |
| `Scenarios.PostHtml` | test_mime.py:111-113 | POST /post with `Accept: text/html` selects post_html |
| `Scenarios.GetOnPostOnly` | test_mime.py:55-63 | GET on the POST-only /post gives 405 with the union of both rules' methods |
| `Scenarios.NoMimetypeIgnoresAccept` | test_mime.py:118-120 | /nomimetype selects no_mimetype under any Accept header |
| `Scenarios.MissingIsNotFound` | flask_mime.py:187 | a path no rule matches gives 404 |

## Left out

- werkzeug's `Rule.match`, the rule compiler and the lazy `self.map.update()` (flask_mime.py:103) are foreign code; only their per-rule answers are modelled (`Adapter.probe`). The table is `_rules` as it stands after `update()`, which can reorder rules of different paths but keeps rules of one path in registration order.
- Accept-header parsing and `MIMEAccept`'s wildcard lookup (flask_mime.py:79-81, 136) follow the grammar of section 5.3.2 of RFC 7231 and are implemented in werkzeug; the model takes any quality function. Float q-values are replaced by exact thousandths.
- URL construction (`make_redirect_url`, `make_alias_redirect_url`, `get_default_redirect`, `url_quote`, `url_join`, and `redirect_to` template substitution or callable invocation, flask_mime.py:122-129, 146-166) is foreign; each redirect is a `RedirectTarget` naming what the URL is built from. The query string, URL scheme, server and script name are not modelled.
- The `path_info` and `query_args` arguments of `match` and their fallback to the adapter's values (flask_mime.py:104-109), and the `path` string built for werkzeug (flask_mime.py:112-113), are not modelled: werkzeug's answers are given for the resolved path.
- `return_rule` (flask_mime.py:168-171, 180-183): `Matched` carries both the rule's table position and its endpoint, so both results are there.
- `Routing.Upper`: Python's `str.upper()` also maps non-ASCII letters; the model upper-cases ASCII letters only.
- `Rule.__repr__` (flask_mime.py:34-51) depends on werkzeug's internal `_trace` and is not modelled.
- `Map.__init__`, `bind`, `bind_to_environ` and `_convert_adapter` (flask_mime.py:54-86) are plumbing over werkzeug and are not modelled. `bind` passes `subdomain` twice (line 69). Without an environ, `mimetypes` is None (line 81), and `match` would fail at line 136 on the first rule with a mimetype. The model always has an Accept map.
- Stacking two `@mimetype` decorators on one function is not modelled as a rebinding. The inner decorator returns `wrapper` (flask_mime.py:214-218), which no endpoint maps to, so the outer one raises at flask_mime.py:209. That is `Binder.BindMimetype`'s `NoEndpoint` error for a handler no view maps to; `Binder.LastBindingWins` is about two decorator calls on the original view function.
- `Mime.__init__`, `init_app` and the `wrapper` pass-through (flask_mime.py:193-200, 214-218) are Flask wiring and are not modelled.
- werkzeug adds HEAD to a rule that allows GET, and Flask adds OPTIONS. The scenario tables write these sets out; the matcher itself takes each rule's method set as given.
- HTTP I/O of the test client (test_mime.py:71-79) and packaging (setup.py) are not modelled.
- Matching does not change the table: `Matcher.Match` takes it as a value. Two calls with the same inputs give the same outcome because the result is a function of those inputs. No lemma states this separately.

/** The scenarios of the library's test suite (test_mime.py), stated over
    the table its setUp registers, and derived from the general lemmas. */
module Scenarios {
  import opened Wrappers
  import opened Routing
  import opened MatchFacts
  import Binder

  const Html := "text/html"
  const Json := "application/json"
  const Plain := "text/plain"

  /** Flask registers a plain route for GET with HEAD and OPTIONS added, and
      `methods=['POST']` as POST with OPTIONS added. */
  const GetMethods: set<Method> := {"GET", "HEAD", "OPTIONS"}
  const PostMethods: set<Method> := {"POST", "OPTIONS"}

  function R(methods: set<Method>, mimetype: Option<MimeType>, endpoint: Endpoint): Rule {
    Rule(Some(methods), mimetype, endpoint, None)
  }

  /** The table as `app.route` registers it, before any mimetype is bound,
      in registration order: /path (0, 1), / (2, 3), /reverse (4, 5),
      /q (6, 7), /post (8, 9), /nomimetype (10). The positions, and so the
      indices in `Matched`, are registration positions. werkzeug may order
      rules of different paths otherwise, but each request here matches the
      rules of one path only, and those keep their relative order, so the
      outcomes do not depend on it. */
  function Registered(): seq<Rule> {
    [ R(GetMethods, None, "path_html"), R(GetMethods, None, "path_json"),
      R(GetMethods, None, "slash_html"), R(GetMethods, None, "slash_json"),
      R(GetMethods, None, "reverse_json"), R(GetMethods, None, "reverse_html"),
      R(GetMethods, None, "q_text"), R(GetMethods, None, "q_json"),
      R(PostMethods, None, "post_html"), R(PostMethods, None, "post_json"),
      R(GetMethods, None, "no_mimetype") ]
  }

  /** The table after the `@mimetype(...)` decorators have run. */
  function Table(): seq<Rule> {
    [ R(GetMethods, Some(Html), "path_html"), R(GetMethods, Some(Json), "path_json"),
      R(GetMethods, Some(Html), "slash_html"), R(GetMethods, Some(Json), "slash_json"),
      R(GetMethods, Some(Json), "reverse_json"), R(GetMethods, Some(Html), "reverse_html"),
      R(GetMethods, Some(Plain), "q_text"), R(GetMethods, Some(Json), "q_json"),
      R(PostMethods, Some(Html), "post_html"), R(PostMethods, Some(Json), "post_json"),
      R(GetMethods, None, "no_mimetype") ]
  }

  /** The decorators of setUp, applied in order, produce the table. */
  lemma SetUpBindsMimetypes()
    ensures
      var t := Binder.Bound(Binder.Bound(Binder.Bound(Binder.Bound(Binder.Bound(
               Binder.Bound(Binder.Bound(Binder.Bound(Binder.Bound(Binder.Bound(Registered(),
                 "path_html", Html), "path_json", Json), "slash_html", Html), "slash_json", Json),
                 "reverse_json", Json), "reverse_html", Html), "q_text", Plain), "q_json", Json),
                 "post_html", Html), "post_json", Json);
      t == Table()
  {
  }

  /** An Accept header naming a single type with no q. */
  function Only(m: MimeType): MimeType -> Quality {
    x => if x == m then FullQuality else 0
  }

  /** `text/html, text/plain;q=0.9, application/json;q=0.5` */
  function WithQ(): MimeType -> Quality {
    x => if x == Html then FullQuality else if x == Plain then 900 else if x == Json then 500 else 0
  }

  /** A request whose path matches exactly the rules at the given positions. */
  function At(path: string, hits: set<nat>, accept: MimeType -> Quality): Adapter {
    Adapter(path, "GET", accept, true,
            i => if i in hits then Probe(Match(map[]), None) else Probe(NoMatch, None))
  }

  lemma BasicHtml()
    ensures MatchSpec(Table(), At("/path", {0, 1}, Only(Html)), "GET") == Matched(0, "path_html", map[])
  {
    ImmediateRuleWins(Table(), At("/path", {0, 1}, Only(Html)), "GET", 0);
  }

  lemma BasicJson()
    ensures MatchSpec(Table(), At("/path", {0, 1}, Only(Json)), "GET") == Matched(1, "path_json", map[])
  {
    var a := At("/path", {0, 1}, Only(Json));
    assert Examine(Table()[0], 0, a, "GET") == Refused;
    ImmediateRuleWins(Table(), a, "GET", 1);
  }

  lemma PlainIsNotAcceptable()
    ensures MatchSpec(Table(), At("/path", {0, 1}, Only(Plain)), "GET") == NotAcceptable
  {
    var a := At("/path", {0, 1}, Only(Plain));
    NotAcceptableExactly(Table(), a, "GET");
    assert Refusing(Table(), a, "GET", 0);
    assert DeniedMethods(Table(), a, "GET") == {};
  }

  /** Registration order does not matter among exact matches of different
      mimetypes: /reverse registers json first. */
  lemma ReverseHtml()
    ensures MatchSpec(Table(), At("/reverse", {4, 5}, Only(Html)), "GET") == Matched(5, "reverse_html", map[])
  {
    var a := At("/reverse", {4, 5}, Only(Html));
    assert Examine(Table()[4], 4, a, "GET") == Refused;
    ImmediateRuleWins(Table(), a, "GET", 5);
  }

  /** text/plain at 0.9 beats application/json at 0.5; the text/html of
      quality 1 is claimed by no /q rule. */
  lemma QualityDecides()
    ensures MatchSpec(Table(), At("/q", {6, 7}, WithQ()), "GET") == Matched(6, "q_text", map[])
  {
    var a := At("/q", {6, 7}, WithQ());
    assert DeniedMethods(Table(), a, "GET") == {};
    BestDeferredWins(Table(), a, "GET", 6);
  }

  lemma PostHtml()
    ensures MatchSpec(Table(), At("/post", {8, 9}, Only(Html)), "POST") == Matched(8, "post_html", map[])
  {
    ImmediateRuleWins(Table(), At("/post", {8, 9}, Only(Html)), "POST", 8);
  }

  lemma GetOnPostReachesEnd()
    ensures Reaches(Table(), At("/post", {8, 9}, Only(Html)), "GET", |Table()|)
  {
    var a := At("/post", {8, 9}, Only(Html));
    forall j | 0 <= j < |Table()| ensures !Examine(Table()[j], j, a, "GET").Terminal? {
      assert j == 8 || j == 9 || a.probe(j).path.NoMatch?;
    }
  }

  lemma GetOnPostDenies()
    ensures DeniedMethods(Table(), At("/post", {8, 9}, Only(Html)), "GET") == PostMethods
  {
    var a := At("/post", {8, 9}, Only(Html));
    var t := Table();
    forall m | m in DeniedMethods(t, a, "GET") ensures m in PostMethods {
      var j :| 0 <= j < |t| && a.probe(j).path.Match? && !Allows(t[j], "GET") && m in t[j].methods.value;
      assert j == 8 || j == 9;
    }
    forall m | m in PostMethods ensures m in DeniedMethods(t, a, "GET") {
      assert a.probe(8).path.Match? && !Allows(t[8], "GET") && m in t[8].methods.value;
    }
  }

  /** GET on the POST-only path: 405 with the union of both rules' methods. */
  lemma GetOnPostOnly()
    ensures MatchSpec(Table(), At("/post", {8, 9}, Only(Html)), "GET") == MethodNotAllowed(PostMethods)
  {
    GetOnPostReachesEnd();
    GetOnPostDenies();
    MethodNotAllowedExactly(Table(), At("/post", {8, 9}, Only(Html)), "GET");
  }

  lemma NoMimetypeIgnoresAccept(accept: MimeType -> Quality)
    ensures MatchSpec(Table(), At("/nomimetype", {10}, accept), "GET") == Matched(10, "no_mimetype", map[])
  {
    ImmediateRuleWins(Table(), At("/nomimetype", {10}, accept), "GET", 10);
  }

  lemma MissingIsNotFound(accept: MimeType -> Quality)
    ensures MatchSpec(Table(), At("/missing", {}, accept), "GET") == NotFound
  {
    var a := At("/missing", {}, accept);
    NotFoundExactly(Table(), a, "GET");
    assert DeniedMethods(Table(), a, "GET") == {};
  }
}

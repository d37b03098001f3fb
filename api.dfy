/**
 * The shared API description: the route table (`api`) with each route's
 * method, path template and declared response codes, and `buildUrl`, which
 * fills `:key` placeholders of a path template from a list of parameters.
 */
module Api {
  import opened Wrappers

  datatype HttpMethod = GET | POST | DELETE

  /** One entry of `api`: its method, its path template and the status codes
      its `responses` object declares. */
  datatype Route = Route(verb: HttpMethod, path: string, responses: set<int>)

  const Register := Route(POST, "/api/register", {201, 400})
  const Login := Route(POST, "/api/login", {200, 401})
  const Logout := Route(POST, "/api/logout", {200})
  const Me := Route(GET, "/api/user", {200})
  const ArticlesList := Route(GET, "/api/articles", {200})
  const ArticlesCreate := Route(POST, "/api/articles", {201, 401})
  const ArticlesDelete := Route(DELETE, "/api/articles/:id", {204, 401, 403, 404})
  const CommentsCreate := Route(POST, "/api/articles/:articleId/comments", {201, 401})
  const CommentsDelete := Route(DELETE, "/api/comments/:id", {204, 401, 403, 404})

  /// Text search and replacement.

  /** `pat` occurs in `s` starting at index `i`. */
  predicate OccursAt(s: string, pat: string, i: nat)
  {
    i + |pat| <= |s| && s[i..i + |pat|] == pat
  }

  /** The first index at or after `from` where `pat` occurs in `s`. */
  function IndexOfFrom(s: string, pat: string, from: nat): (r: Option<nat>)
    requires from <= |s|
    ensures r.Some? ==> from <= r.value && OccursAt(s, pat, r.value)
    ensures r.Some? ==> forall j :: from <= j < r.value ==> !OccursAt(s, pat, j)
    ensures r.None? ==> forall j :: from <= j <= |s| ==> !OccursAt(s, pat, j)
    decreases |s| - from
  {
    if OccursAt(s, pat, from) then Some(from)
    else if from == |s| then None
    else IndexOfFrom(s, pat, from + 1)
  }

  /** The first index where `pat` occurs in `s`, as `String.prototype.indexOf`. */
  function IndexOf(s: string, pat: string): (r: Option<nat>)
    ensures r.Some? ==> OccursAt(s, pat, r.value)
    ensures r.Some? ==> forall j :: 0 <= j < r.value ==> !OccursAt(s, pat, j)
    ensures r.None? ==> forall j :: 0 <= j <= |s| ==> !OccursAt(s, pat, j)
  {
    IndexOfFrom(s, pat, 0)
  }

  /** `s.includes(pat)`. */
  predicate Includes(s: string, pat: string)
    ensures Includes(s, pat) <==> exists j :: 0 <= j <= |s| && OccursAt(s, pat, j)
  {
    IndexOf(s, pat).Some?
  }

  /** `s.replace(pat, rep)` with a string pattern: only the first occurrence
      of `pat` is replaced. */
  function ReplaceFirst(s: string, pat: string, rep: string): (r: string)
    ensures (forall j :: 0 <= j <= |s| ==> !OccursAt(s, pat, j)) ==> r == s
    ensures forall i: nat :: OccursAt(s, pat, i) && (forall j :: 0 <= j < i ==> !OccursAt(s, pat, j)) ==>
      r == s[..i] + rep + s[i + |pat|..]
  {
    match IndexOf(s, pat)
    case None => s
    case Some(i) => s[..i] + rep + s[i + |pat|..]
  }

  /** The first occurrence is the only index that has an occurrence and none
      before it. */
  lemma {:induction false} FirstOccurrence(s: string, pat: string, i: nat)
    requires OccursAt(s, pat, i)
    requires forall j :: 0 <= j < i ==> !OccursAt(s, pat, j)
    ensures IndexOf(s, pat) == Some(i)
  {
    var r := IndexOf(s, pat);
    assert i <= |s|;
    assert r.Some?;
    assert !(r.value < i);
    assert !(i < r.value);
  }

  /** A pattern that begins with a character absent from `prefix` occurs first
      right after `prefix`, whatever follows. */
  lemma {:induction false} FirstAfterPrefix(prefix: string, pat: string, suffix: string)
    requires |pat| > 0 && pat[0] !in prefix
    ensures IndexOf(prefix + pat + suffix, pat) == Some(|prefix|)
  {
    var s := prefix + pat + suffix;
    assert s[|prefix|..|prefix| + |pat|] == pat;
    forall j | 0 <= j < |prefix|
      ensures !OccursAt(s, pat, j)
    {
      assert s[j] == prefix[j] != pat[0];
      assert j + |pat| <= |s| ==> s[j..j + |pat|][0] == s[j];
    }
    FirstOccurrence(s, pat, |prefix|);
  }

  /// Decimal rendering of numbers, `String(value)`.

  /** The value of a decimal digit character. */
  function DigitValue(c: char): int
  {
    c as int - '0' as int
  }

  /** The number a string of decimal digits denotes, most significant digit
      first. */
  function DecimalValue(s: string): int
  {
    if s == [] then 0 else DecimalValue(s[..|s| - 1]) * 10 + DigitValue(s[|s| - 1])
  }

  function DigitChar(d: nat): (c: char)
    requires d < 10
    ensures '0' <= c <= '9' && DigitValue(c) == d
  {
    "0123456789"[d]
  }

  /** The decimal digits of `n`: they denote `n`, and there is no leading
      zero except in "0" itself. */
  function NatToString(n: nat): (s: string)
    ensures |s| > 0
    ensures forall k :: 0 <= k < |s| ==> '0' <= s[k] <= '9'
    ensures DecimalValue(s) == n
    ensures s[0] == '0' ==> s == "0"
  {
    if n < 10 then [DigitChar(n)]
    else
      var s := NatToString(n / 10) + [DigitChar(n % 10)];
      assert s[..|s| - 1] == NatToString(n / 10);
      s
  }

  /** `String(n)` for an integer `n`: its decimal digits, after a minus sign
      when negative. Never contains `:`, so a value cannot create a placeholder. */
  function IntToString(n: int): (s: string)
    ensures |s| > 0
    ensures ':' !in s
    ensures forall k :: 0 <= k < |s| ==> s[k] == '-' || '0' <= s[k] <= '9'
    ensures n >= 0 ==> DecimalValue(s) == n && '-' !in s && (s[0] == '0' ==> s == "0")
    ensures n < 0 ==> s[0] == '-' && |s| > 1 && DecimalValue(s[1..]) == -n && s[1] != '0' && '-' !in s[1..]
  {
    if n < 0 then
      var s := "-" + NatToString(-n);
      assert s[1..] == NatToString(-n);
      s
    else NatToString(n)
  }

  /// `buildUrl`.

  /** One entry of the `params` record, in `Object.entries` order. */
  datatype Param = Param(key: string, value: int)

  function Placeholder(key: string): string { ":" + key }

  /** One step of the loop: when `:key` occurs in `url`, its first occurrence
      becomes the value's text. */
  function Substitute(url: string, p: Param): (r: string)
    ensures r == url <==> !Includes(url, Placeholder(p.key))
    ensures Includes(url, Placeholder(p.key)) ==>
      |r| == |url| - |Placeholder(p.key)| + |IntToString(p.value)|
  {
    if Includes(url, Placeholder(p.key))
    then ReplaceFirst(url, Placeholder(p.key), IntToString(p.value))
    else url
  }

  /** The parameters applied in order, each to the result of the previous
      one. A url without `:` has no placeholder and is left as it is. */
  function SubstituteAll(url: string, params: seq<Param>): (r: string)
    ensures ':' !in url ==> r == url
    decreases |params|
  {
    if params == [] then url
    else
      ColonFreeHasNoPlaceholder(url, params[0].key);
      SubstituteAll(Substitute(url, params[0]), params[1..])
  }

  /** Every placeholder starts with `:`, so a url without `:` has none. */
  lemma ColonFreeHasNoPlaceholder(url: string, key: string)
    ensures ':' !in url ==> !Includes(url, Placeholder(key))
  {
    forall j | 0 <= j <= |url| && OccursAt(url, Placeholder(key), j)
      ensures url[j] == ':'
    {
      assert url[j..j + |key| + 1][0] == Placeholder(key)[0];
    }
  }

  /** `buildUrl(path, params)`: `params` is absent (None) or a list of entries. */
  method BuildUrl(path: string, params: Option<seq<Param>>) returns (url: string)
    ensures params.None? ==> url == path
    ensures params.Some? ==> url == SubstituteAll(path, params.value)
  {
    url := path;
    if params.Some? {
      var ps := params.value;
      var i := 0;
      while i < |ps|
        invariant 0 <= i <= |ps|
        invariant SubstituteAll(url, ps[i..]) == SubstituteAll(path, ps)
      {
        assert ps[i..][1..] == ps[i + 1..];
        if Includes(url, Placeholder(ps[i].key)) {
          url := ReplaceFirst(url, Placeholder(ps[i].key), IntToString(ps[i].value));
        }
        i := i + 1;
      }
    }
  }

  /// Properties of the substitution.

  /** An empty parameter list leaves the path as it is. */
  lemma NoParamsNoChange(path: string)
    ensures SubstituteAll(path, []) == path
  {
  }

  /** A parameter whose placeholder does not occur leaves the url unchanged. */
  lemma {:induction false} AbsentPlaceholderNoChange(url: string, p: Param)
    requires forall j :: 0 <= j <= |url| ==> !OccursAt(url, Placeholder(p.key), j)
    ensures Substitute(url, p) == url
  {
  }

  /** When the placeholder occurs, exactly its first occurrence is replaced
      by the value's text; the rest of the url is kept. */
  lemma {:induction false} FirstPlaceholderReplaced(url: string, p: Param, i: nat)
    requires OccursAt(url, Placeholder(p.key), i)
    requires forall j :: 0 <= j < i ==> !OccursAt(url, Placeholder(p.key), j)
    ensures Substitute(url, p) == url[..i] + IntToString(p.value) + url[i + |p.key| + 1..]
  {
    FirstOccurrence(url, Placeholder(p.key), i);
  }

  /** Parameters act in entry order: applying a concatenation of lists is
      applying the first list, then the second to its result. */
  lemma {:induction false} SubstituteInOrder(url: string, ps: seq<Param>, qs: seq<Param>)
    ensures SubstituteAll(url, ps + qs) == SubstituteAll(SubstituteAll(url, ps), qs)
    decreases |ps|
  {
    if ps == [] {
      assert ps + qs == qs;
    } else {
      assert (ps + qs)[1..] == ps[1..] + qs;
      SubstituteInOrder(Substitute(url, ps[0]), ps[1..], qs);
    }
  }

  /** A single parameter whose placeholder sits after a `:`-free prefix is
      replaced there, whatever follows it. */
  lemma {:induction false} SubstituteAfterPrefix(prefix: string, key: string, suffix: string, value: int)
    requires ':' !in prefix
    ensures SubstituteAll(prefix + Placeholder(key) + suffix, [Param(key, value)])
         == prefix + IntToString(value) + suffix
  {
    var url := prefix + Placeholder(key) + suffix;
    FirstAfterPrefix(prefix, Placeholder(key), suffix);
    assert url[..|prefix|] == prefix;
    assert url[|prefix| + |Placeholder(key)|..] == suffix;
    assert [Param(key, value)][1..] == [];
  }

  /** The url the client builds for deleting an article. */
  lemma ArticleUrl(n: int)
    ensures SubstituteAll(ArticlesDelete.path, [Param("id", n)]) == "/api/articles/" + IntToString(n)
  {
    assert ArticlesDelete.path == "/api/articles/" + Placeholder("id") + "";
    SubstituteAfterPrefix("/api/articles/", "id", "", n);
  }

  /** The url the client builds for commenting on an article. */
  lemma CommentsUrl(n: int)
    ensures SubstituteAll(CommentsCreate.path, [Param("articleId", n)])
         == "/api/articles/" + IntToString(n) + "/comments"
  {
    assert CommentsCreate.path == "/api/articles/" + Placeholder("articleId") + "/comments";
    SubstituteAfterPrefix("/api/articles/", "articleId", "/comments", n);
  }

  /** The match is textual, not by path segment: a key that is a prefix of a
      placeholder's name rewrites part of that placeholder. */
  lemma PlaceholderPrefixMatches(n: int)
    ensures SubstituteAll(CommentsCreate.path, [Param("article", n)])
         == "/api/articles/" + IntToString(n) + "Id/comments"
  {
    assert CommentsCreate.path == "/api/articles/" + Placeholder("article") + "Id/comments";
    SubstituteAfterPrefix("/api/articles/", "article", "Id/comments", n);
  }

  /** On `/:ab`, the entry `a` rewrites part of the placeholder `:ab`. */
  lemma ShortKeyFirst()
    ensures SubstituteAll("/:ab", [Param("a", 1)]) == "/1b"
  {
    assert "/:ab" == "/" + Placeholder("a") + "b";
    SubstituteAfterPrefix("/", "a", "b", 1);
    assert IntToString(1) == "1";
  }

  /** On `/:ab`, the entry `ab` replaces the whole placeholder. */
  lemma LongKeyFirst()
    ensures SubstituteAll("/:ab", [Param("ab", 2)]) == "/2"
  {
    assert "/:ab" == "/" + Placeholder("ab") + "";
    SubstituteAfterPrefix("/", "ab", "", 2);
    assert IntToString(2) == "2";
  }

  /** The order of entries matters: with keys `a` and `ab` on `/:ab`, whichever
      entry comes first takes the placeholder. */
  lemma {:induction false} EntryOrderMatters()
    ensures SubstituteAll("/:ab", [Param("a", 1), Param("ab", 2)]) == "/1b"
    ensures SubstituteAll("/:ab", [Param("ab", 2), Param("a", 1)]) == "/2"
  {
    ShortKeyFirst();
    LongKeyFirst();
    assert [Param("a", 1), Param("ab", 2)] == [Param("a", 1)] + [Param("ab", 2)];
    assert [Param("ab", 2), Param("a", 1)] == [Param("ab", 2)] + [Param("a", 1)];
    SubstituteInOrder("/:ab", [Param("a", 1)], [Param("ab", 2)]);
    SubstituteInOrder("/:ab", [Param("ab", 2)], [Param("a", 1)]);
    assert |"/1b"| == 3 && "/1b"[0] == '/' && ":ab"[0] == ':';
    assert !OccursAt("/1b", ":ab", 0) && !OccursAt("/1b", ":ab", 1) && !OccursAt("/1b", ":ab", 2);
    AbsentPlaceholderNoChange("/1b", Param("ab", 2));
    assert |"/2"| == 2 && "/2"[0] == '/' && ":a"[0] == ':';
    assert !OccursAt("/2", ":a", 0) && !OccursAt("/2", ":a", 1);
    AbsentPlaceholderNoChange("/2", Param("a", 1));
    assert [Param("ab", 2)][1..] == [] && [Param("a", 1)][1..] == [];
  }

  /** Both delete routes declare exactly 204, 401, 403 and 404. */
  lemma DeleteRoutesResponses()
    ensures ArticlesDelete.responses == CommentsDelete.responses == {204, 401, 403, 404}
  {
  }
}

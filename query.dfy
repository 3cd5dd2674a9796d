/** The argument arrays get_related_posts builds (wpcom-related-posts.php:81-123):
    the options merged with their defaults, the Elasticsearch request
    (query string, site name, size, type filter) and the WP_Query arguments
    of the fallback path. All of them are plain values computed from the
    post, the caller's options and what WordPress reports. */
module Query {
  import opened Php
  import opened Tokenizer

  const PostsPerPageKey: Str := "posts_per_page"
  const PostTypeKey: Str := "post_type"

  /** The post_type value that asks for no type restriction. */
  const AllTypes: Str := "all"

  const DefaultPostsPerPage: int := 5

  // ---------------------------------------------------------------------
  // Options and their defaults
  // ---------------------------------------------------------------------

  /** The defaults array; `sourceType` is what get_post_type returned for the
      post (a string, or false when the post does not exist). */
  function Defaults(sourceType: Value): map<Str, Value>
  {
    map[PostsPerPageKey := IntV(DefaultPostsPerPage), PostTypeKey := sourceType]
  }

  /** wp_parse_args( $args, $defaults ). */
  function ResolveArgs(args: map<Str, Value>, sourceType: Value): map<Str, Value>
  {
    ParseArgs(args, Defaults(sourceType))
  }

  /** After the merge both keys the rest of the code reads are present; each
      holds the caller's value if one was given and the default otherwise,
      and every other option the caller passed is kept as it was. */
  lemma ResolvedOptions(args: map<Str, Value>, sourceType: Value)
    ensures var a := ResolveArgs(args, sourceType);
            PostsPerPageKey in a && PostTypeKey in a &&
            a[PostsPerPageKey] == (if PostsPerPageKey in args then args[PostsPerPageKey] else IntV(DefaultPostsPerPage)) &&
            a[PostTypeKey] == (if PostTypeKey in args then args[PostTypeKey] else sourceType) &&
            (forall k :: k in args ==> k in a && a[k] == args[k]) &&
            a.Keys == args.Keys + {PostsPerPageKey, PostTypeKey}
  {
  }

  // ---------------------------------------------------------------------
  // The search request
  // ---------------------------------------------------------------------

  /** implode( ' ', array_unique( $title_keywords + $body_keywords ) ). */
  function QueryText(titleKeywords: seq<Str>, bodyKeywords: seq<Str>): Str
  {
    Implode(ArrayUnique(ArrayUnion(titleKeywords, bodyKeywords)))
  }

  /** The request array handed to es_api_query_index: `query_string.query`,
      `name`, `size`, and `filters.type.value` when a filter is attached. */
  datatype SearchRequest = SearchRequest(query: Str, name: Str, size: int, typeFilter: Option<Str>)

  /** The post-type filter: none for an array of types (not yet supported by
      the plugin), none for a type that is not registered or is 'all'. */
  function TypeFilter(postType: Value, registered: seq<Str>): Option<Str>
  {
    match postType
    case ArrV(_) => None
    case StrV(s) => if s in registered && s != AllTypes then Some(s) else None
    case _ => None
  }

  /** The Elasticsearch request built from the two keyword lists and the
      merged options; `host` is the site's host name. */
  function BuildSearchRequest(titleKeywords: seq<Str>, bodyKeywords: seq<Str>,
                              args: map<Str, Value>, registered: seq<Str>, host: Str): SearchRequest
    requires PostsPerPageKey in args && PostTypeKey in args
  {
    SearchRequest(QueryText(titleKeywords, bodyKeywords), host,
                  IntCast(args[PostsPerPageKey]), TypeFilter(args[PostTypeKey], registered))
  }

  /** The list the query string is made of: every title keyword at its own
      position, then the body keywords from the position the title list ends
      at, so it is as long as the longer of the two lists; every entry is a
      well-formed keyword. */
  lemma CombinedKeywords(title: Str, body: Str)
    ensures var t := Keywords(title, DefaultWordCount);
            var b := Keywords(body, DefaultWordCount);
            var c := ArrayUnion(t, b);
            |c| == (if |t| >= |b| then |t| else |b|) && |c| <= DefaultWordCount &&
            c[..|t|] == t &&
            (forall k :: |t| <= k < |c| ==> c[k] == b[k]) &&
            (forall k :: 0 <= k < |c| ==> WellFormed(c[k]))
  {
    var t := Keywords(title, DefaultWordCount);
    var b := Keywords(body, DefaultWordCount);
    var c := ArrayUnion(t, b);
    forall k | 0 <= k < |c| ensures WellFormed(c[k]) {
      if k >= |t| {
        assert c[k] == b[k];
      }
    }
  }

  /** Reading the query string back word by word gives the combined keywords
      without repeats, in order of first occurrence, one space apart and with
      no empty word; no combined keyword is lost except as a repeat. */
  lemma QueryWords(titleKeywords: seq<Str>, bodyKeywords: seq<Str>)
    requires forall k :: 0 <= k < |titleKeywords| ==> WellFormed(titleKeywords[k])
    requires forall k :: 0 <= k < |bodyKeywords| ==> WellFormed(bodyKeywords[k])
    ensures var c := ArrayUnion(titleKeywords, bodyKeywords);
            var q := QueryText(titleKeywords, bodyKeywords);
            (c == [] ==> q == []) &&
            (c != [] ==>
              var words := Explode(q);
              words == ArrayUnique(c) &&
              NoDuplicates(words) &&
              (forall w :: w in words <==> w in c) &&
              (forall i :: 0 <= i < |words| ==> words[i] != []) &&
              (forall i, j :: 0 <= i < j < |words| ==> FirstIndex(c, words[i]) < FirstIndex(c, words[j])))
  {
    var c := ArrayUnion(titleKeywords, bodyKeywords);
    assert forall k :: 0 <= k < |c| ==> WellFormed(c[k]);
    var u := ArrayUnique(c);
    if c != [] {
      assert c[0] in u;
      forall i | 0 <= i < |u| ensures Space !in u[i] && u[i] != [] {
        assert u[i] in c;
        var k :| 0 <= k < |c| && c[k] == u[i];
      }
      ExplodeImplode(u);
      ArrayUniqueOrder(c);
    }
  }

  /** The query string for a post holds each title keyword as a word. */
  lemma TitleKeywordsInQuery(title: Str, body: Str)
    ensures var t := Keywords(title, DefaultWordCount);
            var b := Keywords(body, DefaultWordCount);
            forall w :: w in t ==> w in Explode(QueryText(t, b))
  {
    var t := Keywords(title, DefaultWordCount);
    var b := Keywords(body, DefaultWordCount);
    QueryWords(t, b);
    var c := ArrayUnion(t, b);
    forall w | w in t ensures w in c {
      var k :| 0 <= k < |t| && t[k] == w;
      assert c[k] == w;
    }
  }

  /** The request size is the posts_per_page option cast to an integer, and
      5 when the caller gave none: exactly the number of posts asked for. */
  lemma SearchSize(titleKeywords: seq<Str>, bodyKeywords: seq<Str>, args: map<Str, Value>,
                   sourceType: Value, registered: seq<Str>, host: Str, n: int)
    requires PostsPerPageKey in args ==> args[PostsPerPageKey] in {IntV(n), StrV(IntString(n))}
    requires PostsPerPageKey !in args ==> n == DefaultPostsPerPage
    ensures BuildSearchRequest(titleKeywords, bodyKeywords, ResolveArgs(args, sourceType), registered, host).size == n
  {
    var a := ResolveArgs(args, sourceType);
    ResolvedOptions(args, sourceType);
    assert IntCast(a[PostsPerPageKey]) == n by {
      if PostsPerPageKey in args && args[PostsPerPageKey] == StrV(IntString(n)) {
        IntCastOfIntString(n);
      }
    }
  }

  /** A type filter is attached exactly when the effective post type (the
      caller's, or the post's own by default) is a single string that is
      registered and is not 'all', and it then carries that string. */
  lemma SearchTypeFilter(titleKeywords: seq<Str>, bodyKeywords: seq<Str>, args: map<Str, Value>,
                         sourceType: Value, registered: seq<Str>, host: Str)
    ensures var effective := if PostTypeKey in args then args[PostTypeKey] else sourceType;
            var f := BuildSearchRequest(titleKeywords, bodyKeywords, ResolveArgs(args, sourceType), registered, host).typeFilter;
            (f.Some? <==> effective.StrV? && effective.s in registered && effective.s != AllTypes) &&
            (f.Some? ==> f.value == effective.s)
  {
  }

  /** The keywords of a text whose space-separated words all qualify and
      carry no trim character at either end are those words, up to the cap. */
  lemma KeywordsOfPlainWords(words: seq<Str>)
    requires 1 <= |words| <= DefaultWordCount
    requires forall k :: 0 <= k < |words| ==> WellFormed(words[k])
    ensures Keywords(Implode(words), DefaultWordCount) == words
  {
    ExplodeImplode(words);
    QualifyingPlain(words);
  }

  lemma {:induction false} QualifyingPlain(words: seq<Str>)
    requires forall k :: 0 <= k < |words| ==> WellFormed(words[k])
    ensures Qualifying(words) == words
    decreases |words|
  {
    if words != [] {
      var init := words[..|words| - 1];
      var last := words[|words| - 1];
      assert forall k :: 0 <= k < |init| ==> init[k] == words[k];
      QualifyingPlain(init);
      assert Trim(last) == last by {
        TrimUntouched(last);
      }
      assert Qualifying(words) == Qualifying(init) + [last];
      assert words == init + [last];
    }
  }

  lemma QueryOfPlainWords(title: seq<Str>, body: seq<Str>)
    requires 1 <= |title| <= DefaultWordCount && 1 <= |body| <= DefaultWordCount
    requires forall k :: 0 <= k < |title| ==> WellFormed(title[k])
    requires forall k :: 0 <= k < |body| ==> WellFormed(body[k])
    requires NoDuplicates(ArrayUnion(title, body))
    ensures QueryText(Keywords(Implode(title), DefaultWordCount), Keywords(Implode(body), DefaultWordCount))
            == Implode(ArrayUnion(title, body))
  {
    KeywordsOfPlainWords(title);
    KeywordsOfPlainWords(body);
    ArrayUniqueOfDistinct(ArrayUnion(title, body));
  }

  /** A worked example: the title "Exploring Wordpress Plugins" gives three
      keywords and the body "Wordpress plugins extend functionality
      significantly" five, so the array union keeps only the body keywords at
      positions 3 and 4; "plugins" and "extend" never reach the query. */
  lemma KeyUnionExample()
    ensures var title: seq<Str> := ["Exploring", "Wordpress", "Plugins"];
            var body: seq<Str> := ["Wordpress", "plugins", "extend", "functionality", "significantly"];
            QueryText(Keywords(Implode(title), DefaultWordCount), Keywords(Implode(body), DefaultWordCount))
            == Implode(["Exploring", "Wordpress", "Plugins", "functionality", "significantly"])
  {
    var title: seq<Str> := ["Exploring", "Wordpress", "Plugins"];
    var body: seq<Str> := ["Wordpress", "plugins", "extend", "functionality", "significantly"];
    var c: seq<Str> := ["Exploring", "Wordpress", "Plugins", "functionality", "significantly"];
    assert ArrayUnion(title, body) == c;
    QueryOfPlainWords(title, body);
  }

  // ---------------------------------------------------------------------
  // The fallback query
  // ---------------------------------------------------------------------

  /** A category of the post; only its term id is used. */
  datatype Category = Category(termId: int)

  /** The WP_Query arguments of the fallback path: `posts_per_page` and, when
      the post has a category, `cat`. */
  datatype FallbackQuery = FallbackQuery(postsPerPage: int, cat: Option<int>)

  function BuildFallbackQuery(args: map<Str, Value>, categories: seq<Category>): FallbackQuery
    requires PostsPerPageKey in args
  {
    FallbackQuery(IntCast(args[PostsPerPageKey]),
                  if categories == [] then None else Some(categories[0].termId))
  }

  /** The fallback query asks for posts_per_page posts (5 by default), and
      restricts to a category exactly when the post has one, namely the
      first one WordPress lists. */
  lemma FallbackArguments(args: map<Str, Value>, sourceType: Value, categories: seq<Category>)
    ensures var f := BuildFallbackQuery(ResolveArgs(args, sourceType), categories);
            f.postsPerPage == (if PostsPerPageKey in args then IntCast(args[PostsPerPageKey]) else DefaultPostsPerPage) &&
            (f.cat.Some? <==> categories != []) &&
            (f.cat.Some? ==> f.cat.value == categories[0].termId)
  {
  }
}

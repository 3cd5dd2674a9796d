/** The WPCOM_Related_Posts object (wpcom-related-posts.php:28-126): the
    singleton slot, the one-time choice between the Elasticsearch path and
    the WP_Query fallback in action_init, and get_related_posts, which
    builds the request for the chosen path and returns what that backend
    answers. */
module Service {
  import opened Php
  import opened Tokenizer
  import opened Query

  /** What the plugin reads of a post: its title and content, the result of
      get_post_type, and the categories get_the_category lists. */
  datatype Post = Post(title: Str, content: Str, postType: Value, categories: seq<Category>)

  /** What WordPress gives for an id that names no post: no title and no
      content (read from a null post), get_post_type false, no categories. */
  const MissingPost: Post := Post([], [], BoolV(false), [])

  /** The WordPress state get_related_posts consults: the id of the post in
      the loop (get_the_ID), the stored posts, the registered post types and
      the host part of the site URL. */
  datatype Site = Site(currentId: int, posts: map<int, Post>, registeredTypes: seq<Str>, host: Str)

  function PostOf(site: Site, id: int): Post
  {
    if id in site.posts then site.posts[id] else MissingPost
  }

  class RelatedPosts {
    /** Whether get_related_posts uses Elasticsearch. PHP leaves it null until
        action_init runs, which `if` reads as false. */
    var isElasticSearch: bool
    /** What the index lookup returned, once the search plugin was found. */
    var index: Value
    /** Whether the no-index admin notice has been hooked. */
    var noticeHooked: bool

    constructor ()
      ensures !isElasticSearch && index == NullV && !noticeHooked
    {
      isElasticSearch := false;
      index := NullV;
      noticeHooked := false;
    }

    /** action_init (wpcom-related-posts.php:52-72). Whether the search
        plugin's file exists and what the index lookup for this site returns
        are passed in. */
    method ActionInit(pluginFileExists: bool, indexLookup: Value)
      modifies this
      ensures isElasticSearch <==> pluginFileExists && Truthy(indexLookup)
      ensures index == if pluginFileExists then indexLookup else old(index)
      ensures noticeHooked == (old(noticeHooked) || !isElasticSearch)
    {
      if pluginFileExists {
        index := indexLookup;
        if Truthy(index) {
          isElasticSearch := true;
        } else {
          isElasticSearch := false;
        }
      } else {
        isElasticSearch := false;
      }
      if !isElasticSearch {
        noticeHooked := true;
      }
    }

    /** get_related_posts (wpcom-related-posts.php:81-126). `search` stands for
        es_api_query_index followed by reading the result ids, `query` for
        running WP_Query; their answers are returned as they come. */
    method GetRelatedPosts(postId: Option<int>, args: map<Str, Value>, site: Site,
                           search: SearchRequest -> seq<int>, query: FallbackQuery -> seq<int>)
      returns (related: seq<int>)
      ensures var id := if postId.Some? then postId.value else site.currentId;
              var post := PostOf(site, id);
              var options := ResolveArgs(args, post.postType);
              related == if isElasticSearch
                then search(BuildSearchRequest(Keywords(post.title, DefaultWordCount),
                                               Keywords(post.content, DefaultWordCount),
                                               options, site.registeredTypes, site.host))
                else query(BuildFallbackQuery(options, post.categories))
    {
      var id := if postId.Some? then postId.value else site.currentId;
      var post := PostOf(site, id);
      var options := ResolveArgs(args, post.postType);
      ResolvedOptions(args, post.postType);
      if isElasticSearch {
        var titleKeywords := GetKeywords(post.title, DefaultWordCount);
        var bodyKeywords := GetKeywords(post.content, DefaultWordCount);
        var request := BuildSearchRequest(titleKeywords, bodyKeywords, options, site.registeredTypes, site.host);
        related := search(request);
      } else {
        related := query(BuildFallbackQuery(options, post.categories));
      }
    }
  }

  /** The class's static state: the `$instance` slot, and how many times
      setup_actions has run (each run hooks action_init to 'init'). */
  class Plugin {
    var instance: RelatedPosts?
    var setupRuns: nat

    constructor ()
      ensures instance == null && setupRuns == 0
    {
      instance := null;
      setupRuns := 0;
    }

    /** instance() (wpcom-related-posts.php:35-41): builds the object and runs
        setup_actions on the first call only; every call returns the same
        object. */
    method Instance() returns (r: RelatedPosts)
      modifies this
      ensures instance == r
      ensures old(instance) != null ==> r == old(instance) && setupRuns == old(setupRuns)
      ensures old(instance) == null ==>
                fresh(r) && !r.isElasticSearch && r.index == NullV && !r.noticeHooked &&
                setupRuns == old(setupRuns) + 1
    {
      if instance == null {
        instance := new RelatedPosts();
        setupRuns := setupRuns + 1;
      }
      r := instance;
    }
  }

  /** The plugin's start-up as WordPress drives it: plugins_loaded calls
      instance(), 'init' calls action_init, and later code calls instance()
      again. Both calls give the same object, setup_actions ran once, and
      the mode and the notice follow the two facts action_init saw. */
  method StartUp(pluginFileExists: bool, indexLookup: Value) returns (p: Plugin, first: RelatedPosts, again: RelatedPosts)
    ensures first == again && p.instance == first && p.setupRuns == 1
    ensures first.isElasticSearch <==> pluginFileExists && Truthy(indexLookup)
    ensures first.noticeHooked <==> !first.isElasticSearch
  {
    p := new Plugin();
    first := p.Instance();
    first.ActionInit(pluginFileExists, indexLookup);
    again := p.Instance();
  }

  /** get_related_posts changes no state of the object: two calls in a row
      with the same arguments return the same list. */
  method RepeatedCalls(r: RelatedPosts, postId: Option<int>, args: map<Str, Value>, site: Site,
                       search: SearchRequest -> seq<int>, query: FallbackQuery -> seq<int>)
    returns (a: seq<int>, b: seq<int>)
    ensures a == b
  {
    a := r.GetRelatedPosts(postId, args, site, search, query);
    b := r.GetRelatedPosts(postId, args, site, search, query);
  }
}

/**
 * The situations the application's test-suite sets up, stated over the
 * model: paging eleven posts, an empty group, the home-page cache, and a
 * follow followed by an unfollow.
 */
module Scenarios {
  import opened Wrappers
  import opened Seqs
  import opened Models
  import opened Social
  import opened Pagination
  import opened Store
  import opened Cache
  import opened Views

  /** Eleven posts at ten a page: page 1 is full and has a next page, page 2 holds the last post, and any later page is page 2. */
  lemma ElevenPostsTwoPages(posts: seq<Post>, beyond: int)
    requires |posts| == 11 && beyond > 2
    ensures GetPage(posts, PostsPerPage, None).items == posts[..10] && GetPage(posts, PostsPerPage, None).HasNext()
    ensures GetPage(posts, PostsPerPage, Some(2)).items == [posts[10]] && !GetPage(posts, PostsPerPage, Some(2)).HasNext()
    ensures GetPage(posts, PostsPerPage, Some(beyond)) == GetPage(posts, PostsPerPage, Some(2))
  {
    assert NumPages(11, PostsPerPage) == 2;
  }

  /** A group without posts has a page, and it is empty: not a missing group. */
  lemma EmptyGroupHasEmptyPage(groups: seq<Group>, posts: seq<Post>, slug: string, requested: Option<int>)
    requires exists g :: g in groups && g.slug == slug && forall p :: p in posts ==> p.group != Some(g.id)
    requires Pairwise(groups, DifferentSlugs)
    ensures GroupPosts(groups, posts, slug, requested).Found?
    ensures GroupPosts(groups, posts, slug, requested).value.page.items == []
  {
    var g :| g in groups && g.slug == slug && forall p :: p in posts ==> p.group != Some(g.id);
    FilterKeepsNone(posts, (p: Post) => p.group == Some(g.id));
  }

  /** The following flag tracks the follow table: set by a follow of another user, cleared by an unfollow, never set for an anonymous viewer. */
  lemma FollowingFlagTracksFollows(rows: seq<Follow>, user: UserId, author: UserId)
    ensures user != author ==> FollowingFlag(FollowRows(rows, user, author), Some(user), author)
    ensures user == author ==> FollowRows(rows, user, author) == rows
    ensures !FollowingFlag(UnfollowRows(rows, user, author), Some(user), author)
    ensures !FollowingFlag(rows, None, author)
  {
  }

  /**
   * The cache tests' common start: one author, one post published at time
   * 1, and the home page requested at `at`, which caches the posts table.
   */
  method OnePostCached(at: nat) returns (store: Store, cache: TimelineCache, p1: Post)
    ensures fresh(store) && fresh(cache) && store.Valid() && cache.Valid()
    ensures store.users == [User(1, "author")] && store.groups == []
    ensures p1.pubDate == 1 && p1.author == 1 && store.posts == [p1]
    ensures cache.entry == Some([p1]) && cache.expiresAt == at + IndexTimeout
  {
    store := new Store([User(1, "author")]);
    assert 1 in UserIds(store.users);
    cache := new TimelineCache();
    var first := store.InsertPost(1, "first", None, 1);
    p1 := Post(first, "first", 1, 1, None);
    var page := Index(cache, store, at, None);
  }

  /**
   * The cache test, first half: a post created after the home page was
   * cached is not on it while the entry lives.
   */
  method CacheHidesNewPost()
  {
    var store, cache, p1 := OnePostCached(2);
    assert 1 in UserIds(store.users);
    var newer := store.InsertPost(1, "The new one", None, 3);
    var page := Index(cache, store, 4, None);
    ShortListingIsFirstPage([p1]);
    assert page.items == [p1];
  }

  /** The cache test, second half: once the entry is cleared, the new post heads the home page. */
  method ClearShowsNewPost()
  {
    var store, cache, p1 := OnePostCached(2);
    assert 1 in UserIds(store.users);
    var newer := store.InsertPost(1, "The new one", None, 3);
    var p2 := Post(newer, "The new one", 3, 1, None);
    assert store.posts == [p2, p1];
    cache.Clear();
    var page := Index(cache, store, 5, None);
    ShortListingIsFirstPage([p2, p1]);
    assert page.items[0] == p2;
  }

  /** A post added while the home page is cached appears once the entry expires, 20 time units after it was set. */
  method CacheExpires()
  {
    var store, cache, p1 := OnePostCached(5);
    assert 1 in UserIds(store.users);
    var later := store.InsertPost(1, "later", None, 6);
    var p2 := Post(later, "later", 6, 1, None);
    assert store.posts == [p2, p1];
    var page := Index(cache, store, 24, None);
    assert page.items == [p1] by {
      ShortListingIsFirstPage([p1]);
    }
    page := Index(cache, store, 25, None);
    ShortListingIsFirstPage([p2, p1]);
    assert page.items[0] == p2;
  }

  /** A user follows an author once however often they ask, never themself, and an unfollow ends it. */
  method FollowThenUnfollow()
  {
    var store := new Store([User(1, "author"), User(2, "reader")]);
    assert 2 in UserIds(store.users);
    assert FindUser(store.users, "author") == Some(User(1, "author"));
    var resp := ProfileFollow(store, 2, "author");
    assert store.follows == [Follow(2, 1)];
    resp := ProfileFollow(store, 2, "author");
    assert store.follows == [Follow(2, 1)];
    resp := ProfileFollow(store, 1, "author");
    assert store.follows == [Follow(2, 1)];
    resp := ProfileUnfollow(store, 2, "author");
    assert store.follows == [];
  }

  /** A listing that fits on one page is the default page. */
  lemma ShortListingIsFirstPage(posts: seq<Post>)
    requires |posts| <= PostsPerPage
    ensures GetPage(posts, PostsPerPage, None).items == posts
  {
    assert NumPages(|posts|, PostsPerPage) == 1;
  }
}

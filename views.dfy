/**
 * The request handlers of the posts application. Read-only pages are
 * functions of the tables; handlers that write are methods on the store.
 * The viewer of a page that needs a login is an account id; elsewhere it
 * is `None` for an anonymous visitor. A redirect or a missing object is a
 * tag in the result; rendering is not modelled.
 */
module Views {
  import opened Wrappers
  import opened Models
  import opened Social
  import opened Pagination
  import opened Feeds
  import opened Store
  import opened Cache

  /** The outcome of a read-only page: its data, or a missing object. */
  datatype Lookup<T> = Found(value: T) | Missing

  /** Where a handler that writes sends the browser. */
  datatype Route = Home | ProfileOf(username: string) | PostOf(username: string, postId: PostId)

  /** The outcome of a handler that writes. */
  datatype Response = NotFound | Redirect(to: Route) | ShowForm

  /** The fields a post form saves. */
  datatype PostFields = PostFields(text: string, group: Option<GroupId>)

  datatype GroupPage = GroupPage(group: Group, page: Page<Post>)
  datatype ProfilePage = ProfilePage(author: User, page: Page<Post>, newest: Option<Post>, following: bool)
  datatype PostPage = PostPage(post: Post, comments: seq<Comment>, following: bool)

  /** The "following" flag of the profile and post pages: a logged-in viewer with a follow row for the author. */
  predicate FollowingFlag(follows: seq<Follow>, viewer: Option<UserId>, author: UserId)
  {
    viewer.Some? && IsFollowing(follows, viewer.value, author)
  }

  /** The only post edits that go through are the author's own. */
  predicate CanEdit(viewer: UserId, post: Post)
  {
    viewer == post.author
  }

  /**
   * Whether a submitted post form is saved: there is a submission and its
   * group, if any, is one of the existing groups.
   */
  predicate Accepted(groups: seq<Group>, submitted: Option<PostFields>)
  {
    submitted.Some? && (submitted.value.group.Some? ==> submitted.value.group.value in GroupIds(groups))
  }

  /** A group's page: missing for an unknown slug, otherwise a page of exactly that group's posts. */
  function GroupPosts(groups: seq<Group>, posts: seq<Post>, slug: string, requested: Option<int>): (r: Lookup<GroupPage>)
    ensures r.Missing? <==> forall g :: g in groups ==> g.slug != slug
    ensures r.Found? ==> r.value.group in groups && r.value.group.slug == slug
    ensures r.Found? ==> r.value.page == GetPage(PostsInGroup(posts, r.value.group.id), PostsPerPage, requested)
  {
    match FindGroup(groups, slug)
    case None => Missing
    case Some(group) => Found(GroupPage(group, GetPage(PostsInGroup(posts, group.id), PostsPerPage, requested)))
  }

  /**
   * A profile page: missing for an unknown username; otherwise a page of the
   * author's posts, the author's newest post, and the following flag.
   */
  function Profile(users: seq<User>, posts: seq<Post>, follows: seq<Follow>, viewer: Option<UserId>,
                   username: string, requested: Option<int>): (r: Lookup<ProfilePage>)
    ensures r.Missing? <==> forall u :: u in users ==> u.username != username
    ensures r.Found? ==> r.value.author in users && r.value.author.username == username
    ensures r.Found? ==> r.value.page == GetPage(PostsBy(posts, r.value.author.id), PostsPerPage, requested)
    ensures r.Found? ==> (r.value.following <==> FollowingFlag(follows, viewer, r.value.author.id))
    ensures r.Found? ==> (r.value.newest.Some? <==> exists p :: p in posts && p.author == r.value.author.id)
    ensures r.Found? && r.value.newest.Some? ==> r.value.newest.value in posts && r.value.newest.value.author == r.value.author.id
    ensures r.Found? && r.value.newest.Some? && NewestFirst(posts) ==>
      forall p :: p in posts && p.author == r.value.author.id ==> r.value.newest.value.pubDate >= p.pubDate
  {
    match FindUser(users, username)
    case None => Missing
    case Some(author) =>
      var authored := PostsBy(posts, author.id);
      assert (exists p :: p in posts && p.author == author.id) ==> authored != [];
      var following := viewer.Some? && IsFollowing(follows, viewer.value, author.id);
      var page := GetPage(authored, PostsPerPage, requested);
      if authored == [] then
        Found(ProfilePage(author, page, None, following))
      else
        assert authored[0] in authored;
        assert NewestFirst(authored) ==> forall p :: p in authored ==> authored[0].pubDate >= p.pubDate by {
          if NewestFirst(authored) {
            HeadIsNewest(authored);
          }
        }
        Found(ProfilePage(author, page, Some(authored[0]), following))
  }

  /**
   * A post's page: missing unless the author named by `username` has a post
   * with that id; otherwise the post, its comments and the following flag.
   */
  function PostView(users: seq<User>, posts: seq<Post>, comments: seq<Comment>, follows: seq<Follow>,
                    viewer: Option<UserId>, username: string, postId: PostId): (r: Lookup<PostPage>)
    ensures r.Missing? <==> FindPost(users, posts, username, postId).None?
    ensures r.Found? ==> r.value.post in posts && r.value.post.id == postId
    ensures r.Found? ==> r.value.post.author == FindUser(users, username).value.id
    ensures r.Found? ==> forall c :: c in r.value.comments <==> c in comments && c.post == Some(postId)
    ensures r.Found? ==> (r.value.following <==> FollowingFlag(follows, viewer, r.value.post.author))
  {
    match FindPost(users, posts, username, postId)
    case None => Missing
    case Some(i) =>
      var post := posts[i];
      var following := !viewer.None? && IsFollowing(follows, viewer.value, post.author);
      Found(PostPage(post, CommentsOn(comments, post.id), following))
  }

  /**
   * The home page. A live cache entry is served as it is, however the posts
   * table has changed since; on a miss the table, newest first, is read,
   * stored for `IndexTimeout` time units and served. Either way the page
   * is newest first.
   */
  method Index(cache: TimelineCache, store: Store, now: nat, requested: Option<int>) returns (page: Page<Post>)
    requires store.Valid() && cache.Valid()
    modifies cache
    ensures cache.Valid() && cache.Live(now)
    ensures old(cache.Live(now)) ==>
      page == GetPage(old(cache.entry).value, PostsPerPage, requested)
      && cache.entry == old(cache.entry) && cache.expiresAt == old(cache.expiresAt)
    ensures !old(cache.Live(now)) ==>
      page == GetPage(store.posts, PostsPerPage, requested)
      && cache.entry == Some(store.posts) && cache.expiresAt == now + IndexTimeout
    ensures NewestFirst(page.items)
  {
    var postList := cache.Get(now);
    if postList.None? {
      postList := Some(store.posts);
      cache.Set(store.posts, now, IndexTimeout);
    }
    page := GetPage(postList.value, PostsPerPage, requested);
    SliceKeepsOrder(postList.value, page.start, page.start + |page.items|);
  }

  /**
   * The "following" page of a logged-in user: for each of the user's follow
   * rows in turn, all of the followed author's posts are appended.
   */
  method FollowIndex(follows: seq<Follow>, posts: seq<Post>, user: UserId, requested: Option<int>) returns (page: Page<Post>)
    ensures page == GetPage(FollowFeed(RowsOf(follows, user), posts), PostsPerPage, requested)
  {
    var postList := CollectFeed(RowsOf(follows, user), posts);
    page := GetPage(postList, PostsPerPage, requested);
  }

  /** The two loops of the following page: for each row, append every post of its author. */
  method CollectFeed(rows: seq<Follow>, posts: seq<Post>) returns (postList: seq<Post>)
    ensures postList == FollowFeed(rows, posts)
  {
    postList := [];
    var i := 0;
    while i < |rows|
      invariant 0 <= i <= |rows|
      invariant postList == FollowFeed(rows[..i], posts)
    {
      var authored := PostsBy(posts, rows[i].author);
      postList := AppendEach(postList, authored);
      assert rows[..i + 1] == rows[..i] + [rows[i]];
      assert FollowFeed([rows[i]], posts) == PostsBy(posts, rows[i].author);
      FollowFeedAppend(rows[..i], [rows[i]], posts);
      i := i + 1;
    }
    assert rows[..i] == rows;
  }

  /** The inner loop of the following page: append the posts one by one. */
  method AppendEach(postList: seq<Post>, authored: seq<Post>) returns (r: seq<Post>)
    ensures r == postList + authored
  {
    r := postList;
    var j := 0;
    while j < |authored|
      invariant 0 <= j <= |authored|
      invariant r == postList + authored[..j]
    {
      assert authored[..j + 1] == authored[..j] + [authored[j]];
      r := r + [authored[j]];
      j := j + 1;
    }
    assert authored[..j] == authored;
  }

  /**
   * Follow: an unknown username is missing; otherwise the row is added
   * unless the author is the user or the pair is already followed, and the
   * browser goes to the author's profile.
   */
  method ProfileFollow(store: Store, user: UserId, username: string) returns (resp: Response)
    requires store.Valid() && user in UserIds(store.users)
    modifies store`follows
    ensures store.Valid()
    ensures FindUser(store.users, username).None? ==> resp == NotFound && store.follows == old(store.follows)
    ensures FindUser(store.users, username).Some? ==>
      resp == Redirect(ProfileOf(username))
      && store.follows == FollowRows(old(store.follows), user, FindUser(store.users, username).value.id)
  {
    var author := FindUser(store.users, username);
    if author.None? {
      return NotFound;
    }
    var authorId := author.value.id;
    if authorId != user && !IsFollowing(store.follows, user, authorId) {
      store.InsertFollow(user, authorId);
    }
    resp := Redirect(ProfileOf(username));
  }

  /** Unfollow: an unknown username is missing; otherwise every row of the pair is deleted. */
  method ProfileUnfollow(store: Store, user: UserId, username: string) returns (resp: Response)
    requires store.Valid() && user in UserIds(store.users)
    modifies store`follows
    ensures store.Valid()
    ensures FindUser(store.users, username).None? ==> resp == NotFound && store.follows == old(store.follows)
    ensures FindUser(store.users, username).Some? ==>
      resp == Redirect(ProfileOf(username))
      && store.follows == UnfollowRows(old(store.follows), user, FindUser(store.users, username).value.id)
  {
    var author := FindUser(store.users, username);
    if author.None? {
      return NotFound;
    }
    store.DeleteFollows(user, author.value.id);
    resp := Redirect(ProfileOf(username));
  }

  /** A new post by the logged-in user, published at `now`, when the form is accepted. */
  method NewPost(store: Store, user: UserId, submitted: Option<PostFields>, now: nat) returns (resp: Response)
    requires store.Valid() && user in UserIds(store.users)
    modifies store`posts, store`nextPostId
    ensures store.Valid()
    ensures !Accepted(store.groups, submitted) ==> resp == ShowForm && store.posts == old(store.posts)
    ensures Accepted(store.groups, submitted) ==>
      resp == Redirect(Home)
      && store.posts == InsertByDate(old(store.posts),
           Post(old(store.nextPostId), submitted.value.text, now, user, submitted.value.group))
  {
    if !Accepted(store.groups, submitted) {
      return ShowForm;
    }
    var _ := store.InsertPost(user, submitted.value.text, submitted.value.group, now);
    resp := Redirect(Home);
  }

  /**
   * Editing a post: missing unless the author named by `username` has a post
   * with that id; anyone but its author is sent back to the post and nothing
   * is saved; the author's accepted form replaces the text and group.
   */
  method PostEdit(store: Store, viewer: UserId, username: string, postId: PostId, submitted: Option<PostFields>)
    returns (resp: Response)
    requires store.Valid() && viewer in UserIds(store.users)
    modifies store`posts
    ensures store.Valid()
    ensures FindPost(store.users, old(store.posts), username, postId).None? ==>
      resp == NotFound && store.posts == old(store.posts)
    ensures FindPost(store.users, old(store.posts), username, postId).Some? ==>
      var i := FindPost(store.users, old(store.posts), username, postId).value;
      if !CanEdit(viewer, old(store.posts)[i]) then
        resp == Redirect(PostOf(username, postId)) && store.posts == old(store.posts)
      else if !Accepted(store.groups, submitted) then
        resp == ShowForm && store.posts == old(store.posts)
      else
        resp == Redirect(PostOf(username, postId))
        && store.posts == old(store.posts)[i := old(store.posts)[i].(text := submitted.value.text, group := submitted.value.group)]
  {
    var found := FindPost(store.users, store.posts, username, postId);
    if found.None? {
      return NotFound;
    }
    var i := found.value;
    if !CanEdit(viewer, store.posts[i]) {
      return Redirect(PostOf(username, postId));
    }
    if !Accepted(store.groups, submitted) {
      return ShowForm;
    }
    store.UpdatePost(i, submitted.value.text, submitted.value.group);
    resp := Redirect(PostOf(username, postId));
  }

  /** A comment by the logged-in user on an existing post, when the form is accepted. */
  method AddComment(store: Store, user: UserId, username: string, postId: PostId, submitted: Option<string>, now: nat)
    returns (resp: Response)
    requires store.Valid() && user in UserIds(store.users)
    modifies store`comments
    ensures store.Valid()
    ensures FindPost(store.users, store.posts, username, postId).None? ==>
      resp == NotFound && store.comments == old(store.comments)
    ensures FindPost(store.users, store.posts, username, postId).Some? && submitted.None? ==>
      resp == ShowForm && store.comments == old(store.comments)
    ensures FindPost(store.users, store.posts, username, postId).Some? && submitted.Some? ==>
      resp == Redirect(PostOf(username, postId))
      && store.comments == old(store.comments) + [Comment(Some(postId), user, submitted.value, now)]
  {
    var found := FindPost(store.users, store.posts, username, postId);
    if found.None? {
      return NotFound;
    }
    if submitted.None? {
      return ShowForm;
    }
    assert store.posts[found.value] in store.posts;
    store.InsertComment(postId, user, submitted.value, now);
    resp := Redirect(PostOf(username, postId));
  }
}

/**
 * The database the views work on, as one object with a table per model.
 * `Valid` is what the schema and the views together keep true: ids and
 * unique fields are unique, every foreign key points at an existing row,
 * posts are held in their default order (publication date, newest first),
 * and the follow table has at most one row per pair and no self-follow
 * (the follow view's pre-check is what keeps the last two).
 * The delete operations carry the schema's on-delete rules: PROTECT for a
 * post's group, CASCADE for everything else.
 */
module Store {
  import opened Wrappers
  import opened Seqs
  import opened Models
  import opened Social

  predicate DifferentUserIds(a: User, b: User) { a.id != b.id }
  predicate DifferentUsernames(a: User, b: User) { a.username != b.username }
  predicate DifferentGroupIds(a: Group, b: Group) { a.id != b.id }
  predicate DifferentSlugs(a: Group, b: Group) { a.slug != b.slug }

  /** A post whose group, if any, is one of `groupIds`. */
  predicate GroupResolves(p: Post, groupIds: set<GroupId>)
  {
    p.group.Some? ==> p.group.value in groupIds
  }

  /** A comment whose post, if any, is one of `postIds`. */
  predicate PostResolves(c: Comment, postIds: set<PostId>)
  {
    c.post.Some? ==> c.post.value in postIds
  }

  /**
   * The comments that survive deleting account `id`: those it did not write
   * and that are not on a post it wrote. Order is kept.
   */
  function CascadedComments(comments: seq<Comment>, posts: seq<Post>, id: UserId): (r: seq<Comment>)
    ensures forall c :: c in r <==> (c in comments && c.author != id
      && !(c.post.Some? && exists p :: p in posts && p.author == id && p.id == c.post.value))
  {
    var doomed := PostIds(Filter(posts, (p: Post) => p.author == id));
    Filter(comments, (c: Comment) => c.author != id && !(c.post.Some? && c.post.value in doomed))
  }

  class Store {
    var users: seq<User>
    var groups: seq<Group>
    var posts: seq<Post>
    var comments: seq<Comment>
    var follows: seq<Follow>
    var nextPostId: PostId
    var nextGroupId: GroupId

    ghost predicate Valid()
      reads this
    {
      && Pairwise(users, DifferentUserIds) && Pairwise(users, DifferentUsernames)
      && Pairwise(groups, DifferentGroupIds) && Pairwise(groups, DifferentSlugs)
      && (forall g :: g in groups ==> g.id < nextGroupId)
      && UniquePosts(posts) && NewestFirst(posts)
      && (forall p :: p in posts ==> p.id < nextPostId)
      && (forall p :: p in posts ==> p.author in UserIds(users) && GroupResolves(p, GroupIds(groups)))
      && (forall c :: c in comments ==> c.author in UserIds(users) && PostResolves(c, PostIds(posts)))
      && Distinct(follows)
      && (forall f :: f in follows ==> f.user != f.author && f.user in UserIds(users) && f.author in UserIds(users))
    }

    /** An empty database over the given accounts. */
    constructor (accounts: seq<User>)
      requires Pairwise(accounts, DifferentUserIds) && Pairwise(accounts, DifferentUsernames)
      ensures Valid()
      ensures users == accounts && groups == [] && posts == [] && comments == [] && follows == []
    {
      users, groups, posts, comments, follows := accounts, [], [], [], [];
      nextPostId, nextGroupId := 0, 0;
    }

    /** Creates a group; the slug is a unique field, so a taken slug creates nothing. */
    method CreateGroup(title: string, slug: string, description: string) returns (r: Option<GroupId>)
      requires Valid()
      modifies this`groups, this`nextGroupId
      ensures Valid()
      ensures FindGroup(old(groups), slug).Some? ==> r.None? && groups == old(groups)
      ensures FindGroup(old(groups), slug).None? ==>
        r == Some(old(nextGroupId)) && groups == old(groups) + [Group(old(nextGroupId), title, slug, description)]
    {
      if FindGroup(groups, slug).Some? {
        return None;
      }
      var g := Group(nextGroupId, title, slug, description);
      forall i | 0 <= i < |groups| ensures DifferentGroupIds(groups[i], g) && DifferentSlugs(groups[i], g) {
        assert groups[i] in groups;
      }
      groups := groups + [g];
      nextGroupId := nextGroupId + 1;
      r := Some(g.id);
    }

    /** Inserts a post published at `now`, with the next free id; the table stays in its default order. */
    method InsertPost(author: UserId, text: string, group: Option<GroupId>, now: nat) returns (id: PostId)
      requires Valid() && author in UserIds(users) && (group.Some? ==> group.value in GroupIds(groups))
      modifies this`posts, this`nextPostId
      ensures Valid()
      ensures id == old(nextPostId) && id !in PostIds(old(posts))
      ensures posts == InsertByDate(old(posts), Post(id, text, now, author, group))
    {
      var p := Post(nextPostId, text, now, author, group);
      assert p.id !in PostIds(posts);
      InsertByDateKeepsOrder(posts, p);
      InsertByDateKeepsIdsUnique(posts, p);
      var r := InsertByDate(posts, p);
      forall c | c in comments ensures PostResolves(c, PostIds(r)) {
        if c.post.Some? {
          var q :| q in posts && q.id == c.post.value;
          assert q in r;
        }
      }
      assert forall q :: q in r ==> q.id < nextPostId + 1;
      assert forall q :: q in r ==> q.author in UserIds(users) && GroupResolves(q, GroupIds(groups));
      posts := r;
      nextPostId := nextPostId + 1;
      id := p.id;
    }
  
    /** Saves new text and group into the post at position `i`; its id, author and date stay. */
    method UpdatePost(i: nat, text: string, group: Option<GroupId>)
      requires Valid() && i < |posts| && (group.Some? ==> group.value in GroupIds(groups))
      modifies this`posts
      ensures Valid()
      ensures posts == old(posts)[i := old(posts)[i].(text := text, group := group)]
    {
      var p := posts[i].(text := text, group := group);
      var r := posts[i := p];
      assert forall q :: q in r ==> q in posts || q == p;
      assert PostIds(r) == PostIds(posts) by {
        forall x | x in PostIds(posts) ensures x in PostIds(r) {
          var q :| q in posts && q.id == x;
          var k :| 0 <= k < |posts| && posts[k] == q;
          assert r[k].id == x;
        }
      }
      forall a, b | 0 <= a < b < |r| ensures NewerOrSame(r[a], r[b]) && DifferentIds(r[a], r[b]) {
        assert NewerOrSame(posts[a], posts[b]) && DifferentIds(posts[a], posts[b]);
      }
      posts := r;
    }

    /** Inserts a comment on an existing post. */
    method InsertComment(post: PostId, author: UserId, text: string, now: nat)
      requires Valid() && post in PostIds(posts) && author in UserIds(users)
      modifies this`comments
      ensures Valid()
      ensures comments == old(comments) + [Comment(Some(post), author, text, now)]
    {
      comments := comments + [Comment(Some(post), author, text, now)];
    }

    /** Inserts a follow row; the caller has checked that it is neither a self-follow nor a repeat. */
    method InsertFollow(user: UserId, author: UserId)
      requires Valid() && user != author && !IsFollowing(follows, user, author)
      requires user in UserIds(users) && author in UserIds(users)
      modifies this`follows
      ensures Valid()
      ensures follows == old(follows) + [Follow(user, author)]
    {
      FollowKeepsPairsUnique(follows, user, author);
      follows := follows + [Follow(user, author)];
    }

    /** Deletes every follow row of the pair. */
    method DeleteFollows(user: UserId, author: UserId)
      requires Valid()
      modifies this`follows
      ensures Valid()
      ensures follows == UnfollowRows(old(follows), user, author)
    {
      FilterPairwise(follows, (f: Follow) => f != Follow(user, author), NotSame);
      follows := UnfollowRows(follows, user, author);
    }

    /**
     * Deletes a group. A post's group is a PROTECT reference, so while any
     * post is in the group the delete is refused and nothing changes.
     */
    method DeleteGroup(id: GroupId) returns (deleted: bool)
      requires Valid()
      modifies this`groups
      ensures Valid()
      ensures deleted <==> forall p :: p in posts ==> p.group != Some(id)
      ensures !deleted ==> groups == old(groups)
      ensures deleted ==> groups == Filter(old(groups), (g: Group) => g.id != id)
      ensures deleted ==> id !in GroupIds(groups)
    {
      deleted := IndexOf(posts, (p: Post) => p.group == Some(id)).None?;
      if deleted {
        var keep := (g: Group) => g.id != id;
        FilterPairwise(groups, keep, DifferentGroupIds);
        FilterPairwise(groups, keep, DifferentSlugs);
        var r := Filter(groups, keep);
        forall p | p in posts ensures GroupResolves(p, GroupIds(r)) {
          if p.group.Some? {
            var g :| g in groups && g.id == p.group.value;
            assert g in r;
          }
        }
        groups := r;
      }
    }

    /** Deletes a post; its comments go with it (CASCADE). */
    method DeletePost(id: PostId)
      requires Valid()
      modifies this`posts, this`comments
      ensures Valid()
      ensures posts == Filter(old(posts), (p: Post) => p.id != id)
      ensures comments == Filter(old(comments), (c: Comment) => c.post != Some(id))
      ensures id !in PostIds(posts)
    {
      var keepPost := (p: Post) => p.id != id;
      FilterPairwise(posts, keepPost, NewerOrSame);
      FilterPairwise(posts, keepPost, DifferentIds);
      var ps := Filter(posts, keepPost);
      var cs := Filter(comments, (c: Comment) => c.post != Some(id));
      forall c | c in cs ensures PostResolves(c, PostIds(ps)) {
        if c.post.Some? {
          var q :| q in posts && q.id == c.post.value;
          assert q in ps;
        }
      }
      posts, comments := ps, cs;
    }

    /**
     * Deletes an account and, by CASCADE, its posts, the comments on those
     * posts, its own comments and every follow row naming it on either side.
     * Dependent rows go first, so every intermediate state is consistent.
     */
    method DeleteUser(id: UserId)
      requires Valid()
      modifies this`users, this`posts, this`comments, this`follows
      ensures Valid()
      ensures users == Filter(old(users), (u: User) => u.id != id)
      ensures posts == Filter(old(posts), (p: Post) => p.author != id)
      ensures comments == CascadedComments(old(comments), old(posts), id)
      ensures follows == Filter(old(follows), (f: Follow) => f.user != id && f.author != id)
      ensures id !in UserIds(users)
    {
      DeleteFollowsNaming(id);
      DeleteCommentsCascading(id);
      DeletePostsBy(id);
      DeleteAccount(id);
    }

    /** First cascade step: every follow row with the account on either side. */
    method DeleteFollowsNaming(id: UserId)
      requires Valid()
      modifies this`follows
      ensures Valid()
      ensures follows == Filter(old(follows), (f: Follow) => f.user != id && f.author != id)
    {
      var keep := (f: Follow) => f.user != id && f.author != id;
      FilterPairwise(follows, keep, NotSame);
      follows := Filter(follows, keep);
    }

    /** Second cascade step: the account's comments and the comments on its posts. */
    method DeleteCommentsCascading(id: UserId)
      requires Valid()
      modifies this`comments
      ensures Valid()
      ensures comments == CascadedComments(old(comments), posts, id)
    {
      comments := CascadedComments(comments, posts, id);
    }

    /** Third cascade step: the account's posts, once nothing refers to them. */
    method DeletePostsBy(id: UserId)
      requires Valid()
      requires forall c :: c in comments ==>
        !(c.post.Some? && exists p :: p in posts && p.author == id && p.id == c.post.value)
      modifies this`posts
      ensures Valid()
      ensures posts == Filter(old(posts), (p: Post) => p.author != id)
    {
      var keep := (p: Post) => p.author != id;
      FilterPairwise(posts, keep, NewerOrSame);
      FilterPairwise(posts, keep, DifferentIds);
      var ps := Filter(posts, keep);
      forall c | c in comments ensures PostResolves(c, PostIds(ps)) {
        if c.post.Some? {
          var q :| q in posts && q.id == c.post.value;
          assert q in ps;
        }
      }
      posts := ps;
    }

    /** Last cascade step: the account itself, once no row refers to it. */
    method DeleteAccount(id: UserId)
      requires Valid()
      requires forall p :: p in posts ==> p.author != id
      requires forall c :: c in comments ==> c.author != id
      requires forall f :: f in follows ==> f.user != id && f.author != id
      modifies this`users
      ensures Valid()
      ensures users == Filter(old(users), (u: User) => u.id != id)
      ensures id !in UserIds(users)
    {
      var keep := (u: User) => u.id != id;
      FilterPairwise(users, keep, DifferentUserIds);
      FilterPairwise(users, keep, DifferentUsernames);
      var us := Filter(users, keep);
      assert forall x :: x in UserIds(users) && x != id ==> x in UserIds(us) by {
        forall x | x in UserIds(users) && x != id ensures x in UserIds(us) {
          var u :| u in users && u.id == x;
          assert u in us;
        }
      }
      users := us;
    }
  }
}

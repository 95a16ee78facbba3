/**
 * The post listings the views build: a group's posts, an author's posts,
 * a post's comments, and the "following" feed, which concatenates the
 * posts of each followed author in the order of the viewer's follow rows.
 */
module Feeds {
  import opened Wrappers
  import opened Seqs
  import opened Models
  import opened Social

  /** An author's posts, in the order of the table. */
  function PostsBy(posts: seq<Post>, author: UserId): (r: seq<Post>)
    ensures forall p :: p in r <==> p in posts && p.author == author
    ensures NewestFirst(posts) ==> NewestFirst(r)
    ensures UniquePosts(posts) ==> UniquePosts(r)
  {
    var keep := (p: Post) => p.author == author;
    FilterPairwise(posts, keep, NewerOrSame);
    FilterPairwise(posts, keep, DifferentIds);
    Filter(posts, keep)
  }

  /** An author's posts keep the table's order: a post added at the end of the table lands at the end of its author's listing. */
  lemma PostsByAppend(posts: seq<Post>, q: Post, author: UserId)
    ensures PostsBy(posts + [q], author) == PostsBy(posts, author) + (if q.author == author then [q] else [])
  {
    var keep := (p: Post) => p.author == author;
    FilterAppend(posts, [q], keep);
    assert Filter([q], keep) == (if q.author == author then [q] else []) by {
      assert [q][1..] == [];
    }
  }

  /** A group's posts, in the order of the table. */
  function PostsInGroup(posts: seq<Post>, group: GroupId): (r: seq<Post>)
    ensures forall p :: p in r <==> p in posts && p.group == Some(group)
    ensures NewestFirst(posts) ==> NewestFirst(r)
  {
    var keep := (p: Post) => p.group == Some(group);
    FilterPairwise(posts, keep, NewerOrSame);
    Filter(posts, keep)
  }

  /** A post's comments. */
  function CommentsOn(comments: seq<Comment>, post: PostId): (r: seq<Comment>)
    ensures forall c :: c in r <==> c in comments && c.post == Some(post)
  {
    Filter(comments, (c: Comment) => c.post == Some(post))
  }

  /** The follow rows whose follower is `user`, in table order. */
  function RowsOf(rows: seq<Follow>, user: UserId): (r: seq<Follow>)
    ensures forall f :: f in r <==> f in rows && f.user == user
    ensures Distinct(rows) ==> Distinct(r)
  {
    var keep := (f: Follow) => f.user == user;
    FilterPairwise(rows, keep, NotSame);
    Filter(rows, keep)
  }

  /**
   * What the following feed's two loops build from the rows they visit:
   * for each row in turn, all of that row's author's posts.
   */
  function FollowFeed(rows: seq<Follow>, posts: seq<Post>): (r: seq<Post>)
    ensures forall p :: p in r ==> p in posts
  {
    if rows == [] then [] else FollowFeed(rows[..|rows| - 1], posts) + PostsBy(posts, rows[|rows| - 1].author)
  }

  /** The feed of two runs of rows is the feed of the first followed by the feed of the second. */
  lemma {:induction false} FollowFeedAppend(a: seq<Follow>, b: seq<Follow>, posts: seq<Post>)
    ensures FollowFeed(a + b, posts) == FollowFeed(a, posts) + FollowFeed(b, posts)
  {
    if b == [] {
      assert a + b == a;
    } else {
      var init, last := b[..|b| - 1], b[|b| - 1];
      AppendDropLast(a, b);
      FollowFeedAppend(a, init, posts);
      var x, y, z := FollowFeed(a, posts), FollowFeed(init, posts), PostsBy(posts, last.author);
      assert FollowFeed(a + b, posts) == (x + y) + z;
      assert FollowFeed(b, posts) == y + z;
      assert (x + y) + z == x + (y + z);
    }
  }

  /** A post is in the feed of `rows` iff it is in the table and one of the rows names its author. */
  lemma {:induction false} FollowFeedMembers(rows: seq<Follow>, posts: seq<Post>, p: Post)
    ensures p in FollowFeed(rows, posts) <==> p in posts && exists f :: f in rows && f.author == p.author
  {
    if rows != [] {
      var init, last := rows[..|rows| - 1], rows[|rows| - 1];
      FollowFeedMembers(init, posts, p);
      assert rows == init + [last];
      if p in posts && exists f :: f in rows && f.author == p.author {
        var f :| f in rows && f.author == p.author;
        if f != last {
          assert f in init;
        }
      }
    }
  }

  /** No two rows name the same author. */
  ghost predicate DistinctAuthors(rows: seq<Follow>)
  {
    forall i, j :: 0 <= i < j < |rows| ==> rows[i].author != rows[j].author
  }

  /** With distinct authors, a post reached through the earlier rows is not by the last row's author. */
  lemma EarlierAuthorDiffers(rows: seq<Follow>, posts: seq<Post>, a: Post)
    requires DistinctAuthors(rows) && rows != []
    requires a in FollowFeed(rows[..|rows| - 1], posts)
    ensures a.author != rows[|rows| - 1].author
  {
    FollowFeedMembers(rows[..|rows| - 1], posts, a);
    var k :| 0 <= k < |rows| - 1 && rows[k].author == a.author;
  }

  /** Rows naming distinct authors yield a feed without a repeated post. */
  lemma {:induction false} FollowFeedUnique(rows: seq<Follow>, posts: seq<Post>)
    requires UniquePosts(posts) && DistinctAuthors(rows)
    ensures UniquePosts(FollowFeed(rows, posts))
  {
    if rows != [] {
      var init, last := rows[..|rows| - 1], rows[|rows| - 1];
      FollowFeedUnique(init, posts);
      var front, back := FollowFeed(init, posts), PostsBy(posts, last.author);
      var r := front + back;
      forall i, j | 0 <= i < j < |r| ensures DifferentIds(r[i], r[j]) {
        if j < |front| {
          assert r[i] == front[i] && r[j] == front[j];
        } else if i >= |front| {
          assert r[i] == back[i - |front|] && r[j] == back[j - |front|];
        } else {
          assert r[i] == front[i] && r[j] == back[j - |front|];
          EarlierAuthorDiffers(rows, posts, r[i]);
        }
      }
    }
  }

  /** The following feed of `user` holds exactly the posts of the authors `user` follows. */
  lemma FollowingFeedMembers(follows: seq<Follow>, posts: seq<Post>, user: UserId, p: Post)
    ensures p in FollowFeed(RowsOf(follows, user), posts) <==> p in posts && IsFollowing(follows, user, p.author)
  {
    FollowFeedMembers(RowsOf(follows, user), posts, p);
    if p in posts && IsFollowing(follows, user, p.author) {
      assert Follow(user, p.author) in RowsOf(follows, user);
    }
  }

  /** A user who follows nobody gets an empty following feed. */
  lemma FollowingFeedEmpty(follows: seq<Follow>, posts: seq<Post>, user: UserId)
    requires forall f :: f in follows ==> f.user != user
    ensures FollowFeed(RowsOf(follows, user), posts) == []
  {
    FilterKeepsNone(follows, (f: Follow) => f.user == user);
  }

  /** With one row per pair, the following feed never shows a post twice. */
  lemma FollowingFeedUnique(follows: seq<Follow>, posts: seq<Post>, user: UserId)
    requires Distinct(follows) && UniquePosts(posts)
    ensures UniquePosts(FollowFeed(RowsOf(follows, user), posts))
  {
    var rows := RowsOf(follows, user);
    forall i, j | 0 <= i < j < |rows| ensures rows[i].author != rows[j].author {
      assert rows[i] in rows && rows[j] in rows;
      assert NotSame(rows[i], rows[j]);
    }
    FollowFeedUnique(rows, posts);
  }

  /**
   * The feed is not de-duplicated: two rows for the same pair put each of
   * that author's posts in the feed twice.
   */
  lemma RepeatedRowRepeatsPosts(p: Post)
    ensures FollowFeed([Follow(0, p.author), Follow(0, p.author)], [p]) == [p, p]
  {
    var rows := [Follow(0, p.author), Follow(0, p.author)];
    var one := rows[..1];
    assert one == [Follow(0, p.author)] && one[..0] == [];
    assert Filter([p], (q: Post) => q.author == p.author) == [p] + Filter([p][1..], (q: Post) => q.author == p.author);
    assert PostsBy([p], p.author) == [p];
    assert FollowFeed(one, [p]) == FollowFeed([], [p]) + [p];
    assert FollowFeed(rows, [p]) == FollowFeed(one, [p]) + [p];
  }
}

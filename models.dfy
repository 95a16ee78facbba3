/**
 * The records of the posts application: posts, groups, comments and follow
 * edges. Users are identities owned by the authentication layer and appear
 * here only as an id and a username.
 */
module Models {
  import opened Wrappers
  import opened Seqs

  type UserId = nat
  type PostId = nat
  type GroupId = nat

  datatype User = User(id: UserId, username: string)

  /** A post; `pubDate` is the creation instant, set once. `group` is optional. */
  datatype Post = Post(id: PostId, text: string, pubDate: nat, author: UserId, group: Option<GroupId>)

  datatype Group = Group(id: GroupId, title: string, slug: string, description: string)

  /** A comment; `post` is nullable in the schema. */
  datatype Comment = Comment(post: Option<PostId>, author: UserId, text: string, created: nat)

  /** A directed edge: `user` follows `author`. */
  datatype Follow = Follow(user: UserId, author: UserId)

  /** Number of characters a post shows as its label. */
  const LabelLength: nat := 15

  function UserIds(users: seq<User>): set<UserId>
  {
    set u | u in users :: u.id
  }

  function GroupIds(groups: seq<Group>): set<GroupId>
  {
    set g | g in groups :: g.id
  }

  function PostIds(posts: seq<Post>): set<PostId>
  {
    set p | p in posts :: p.id
  }

  /** The user with the given username (a lookup that can miss). */
  function FindUser(users: seq<User>, username: string): (r: Option<User>)
    ensures r.Some? ==> r.value in users && r.value.username == username
    ensures r.None? ==> forall u :: u in users ==> u.username != username
  {
    match IndexOf(users, (u: User) => u.username == username)
    case None => None
    case Some(i) => Some(users[i])
  }

  /** The group with the given slug (a lookup that can miss). */
  function FindGroup(groups: seq<Group>, slug: string): (r: Option<Group>)
    ensures r.Some? ==> r.value in groups && r.value.slug == slug
    ensures r.None? ==> forall g :: g in groups ==> g.slug != slug
  {
    match IndexOf(groups, (g: Group) => g.slug == slug)
    case None => None
    case Some(i) => Some(groups[i])
  }

  /**
   * The position of the post with id `postId` whose author has the username
   * `username`, if there is one.
   */
  function FindPost(users: seq<User>, posts: seq<Post>, username: string, postId: PostId): (r: Option<nat>)
    ensures FindUser(users, username).None? ==> r.None?
    ensures r.Some? ==> r.value < |posts| && posts[r.value].id == postId
    ensures r.Some? ==> posts[r.value].author == FindUser(users, username).value.id
    ensures r.None? && FindUser(users, username).Some? ==>
      forall p :: p in posts ==> !(p.id == postId && p.author == FindUser(users, username).value.id)
  {
    match FindUser(users, username)
    case None => None
    case Some(author) => IndexOf(posts, (p: Post) => p.id == postId && p.author == author.id)
  }

  /** The label of a post: its text cut to the first 15 characters. */
  function PostLabel(p: Post): (r: string)
    ensures r <= p.text
    ensures |p.text| <= LabelLength ==> r == p.text
    ensures |p.text| > LabelLength ==> |r| == LabelLength
  {
    if |p.text| <= LabelLength then p.text else p.text[..LabelLength]
  }

  /** The label of a group is its title. */
  function GroupLabel(g: Group): string
  {
    g.title
  }

  /** `a` may precede `b` in a listing ordered by publication date, newest first. */
  predicate NewerOrSame(a: Post, b: Post)
  {
    a.pubDate >= b.pubDate
  }

  predicate DifferentIds(a: Post, b: Post)
  {
    a.id != b.id
  }

  /** A listing in the posts' default order: publication date descending. */
  ghost predicate NewestFirst(posts: seq<Post>)
  {
    Pairwise(posts, NewerOrSame)
  }

  /** No two posts of a listing share an id. */
  ghost predicate UniquePosts(posts: seq<Post>)
  {
    Pairwise(posts, DifferentIds)
  }

  /** The head of a newest-first listing is at least as recent as every post in it. */
  lemma HeadIsNewest(posts: seq<Post>)
    requires NewestFirst(posts) && posts != []
    ensures forall p :: p in posts ==> posts[0].pubDate >= p.pubDate
  {
    forall p | p in posts ensures posts[0].pubDate >= p.pubDate {
      var k :| 0 <= k < |posts| && posts[k] == p;
      if k > 0 {
        assert NewerOrSame(posts[0], posts[k]);
      }
    }
  }

  /**
   * Places a new row where the default ordering lists it: before the first
   * post that is not newer, so a post tied on date with older rows is listed
   * ahead of them.
   */
  function InsertByDate(posts: seq<Post>, p: Post): (r: seq<Post>)
    ensures multiset(r) == multiset(posts) + multiset{p}
    ensures forall q :: q in r <==> q in posts || q == p
    ensures (posts == [] || p.pubDate >= posts[0].pubDate) ==> r == [p] + posts
  {
    if posts == [] || p.pubDate >= posts[0].pubDate then [p] + posts
    else
      assert posts == [posts[0]] + posts[1..];
      [posts[0]] + InsertByDate(posts[1..], p)
  }

  /** Inserting by date keeps a listing newest first. */
  lemma {:induction false} InsertByDateKeepsOrder(posts: seq<Post>, p: Post)
    requires NewestFirst(posts)
    ensures NewestFirst(InsertByDate(posts, p))
  {
    var r := InsertByDate(posts, p);
    if posts == [] || p.pubDate >= posts[0].pubDate {
      forall i, j | 0 <= i < j < |r| ensures NewerOrSame(r[i], r[j]) {
        if i == 0 {
          assert r[j] == posts[j - 1];
          if j - 1 > 0 { assert NewerOrSame(posts[0], posts[j - 1]); }
        } else {
          assert r[i] == posts[i - 1] && r[j] == posts[j - 1];
        }
      }
    } else {
      var tail := posts[1..];
      assert NewestFirst(tail) by {
        forall i, j | 0 <= i < j < |tail| ensures NewerOrSame(tail[i], tail[j]) {
          assert tail[i] == posts[i + 1] && tail[j] == posts[j + 1];
        }
      }
      InsertByDateKeepsOrder(tail, p);
      var t := InsertByDate(tail, p);
      assert r == [posts[0]] + t;
      forall i, j | 0 <= i < j < |r| ensures NewerOrSame(r[i], r[j]) {
        if i == 0 {
          assert r[j] in multiset(t);
          assert r[j] in multiset(tail) + multiset{p};
          if r[j] != p {
            assert r[j] in tail;
            var k :| 0 <= k < |tail| && tail[k] == r[j];
            assert NewerOrSame(posts[0], posts[k + 1]);
          }
        } else {
          assert r[i] == t[i - 1] && r[j] == t[j - 1];
        }
      }
    }
  }

  /** Any stretch of a newest-first listing is newest first. */
  lemma SliceKeepsOrder(posts: seq<Post>, i: nat, j: nat)
    requires NewestFirst(posts) && i <= j <= |posts|
    ensures NewestFirst(posts[i..j])
  {
    var s := posts[i..j];
    forall a, b | 0 <= a < b < |s| ensures NewerOrSame(s[a], s[b]) {
      assert s[a] == posts[i + a] && s[b] == posts[i + b];
    }
  }

  /** A post whose id is not in a listing with unique ids can go in front of it. */
  lemma PrependKeepsIdsUnique(q: Post, posts: seq<Post>)
    requires UniquePosts(posts) && q.id !in PostIds(posts)
    ensures UniquePosts([q] + posts)
  {
    var r := [q] + posts;
    forall i, j | 0 <= i < j < |r| ensures DifferentIds(r[i], r[j]) {
      assert r[j] == posts[j - 1];
      if i == 0 {
        assert r[j].id in PostIds(posts);
      } else {
        assert r[i] == posts[i - 1];
      }
    }
  }

  /** The head of a listing with unique ids does not reappear in its tail, whose ids are unique too. */
  lemma TailIdsUnique(posts: seq<Post>)
    requires UniquePosts(posts) && posts != []
    ensures UniquePosts(posts[1..]) && posts[0].id !in PostIds(posts[1..])
  {
    var tail := posts[1..];
    forall i, j | 0 <= i < j < |tail| ensures DifferentIds(tail[i], tail[j]) {
      assert tail[i] == posts[i + 1] && tail[j] == posts[j + 1];
    }
    forall q | q in tail ensures q.id != posts[0].id {
      var k :| 0 <= k < |tail| && tail[k] == q;
      assert DifferentIds(posts[0], posts[k + 1]);
    }
  }

  /** Inserting a post whose id is new keeps the ids of a listing unique. */
  lemma {:induction false} InsertByDateKeepsIdsUnique(posts: seq<Post>, p: Post)
    requires UniquePosts(posts) && p.id !in PostIds(posts)
    ensures UniquePosts(InsertByDate(posts, p))
  {
    if posts == [] || p.pubDate >= posts[0].pubDate {
      PrependKeepsIdsUnique(p, posts);
    } else {
      var tail := posts[1..];
      TailIdsUnique(posts);
      assert posts[0].id != p.id by {
        assert posts[0].id in PostIds(posts);
      }
      assert p.id !in PostIds(tail) by {
        forall q | q in tail ensures q.id != p.id {
          assert q.id in PostIds(posts);
        }
      }
      InsertByDateKeepsIdsUnique(tail, p);
      var t := InsertByDate(tail, p);
      assert posts[0].id !in PostIds(t) by {
        forall q | q in t ensures q.id != posts[0].id {
          assert q in tail || q == p;
        }
      }
      PrependKeepsIdsUnique(posts[0], t);
    }
  }


}

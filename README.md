# Yatube posts: a verified model

Yatube is a small blogging site. Registered users write posts, optionally in
a group. Anyone can read the home page (all posts, newest first), a group's
page, an author's profile and a single post with its comments. Logged-in
users can create posts, edit their own posts, comment, and follow or
unfollow other authors. A "following" page shows the posts of the authors
a user follows. Every listing is cut into pages of ten by Django's
paginator, and the home page's listing is cached for 20 seconds.

This project models the `posts` application's request handlers
(`yatube/posts/views.py`) and its data model (`yatube/posts/models.py`):

- `wrappers.dfy`, `seqs.dfy`: `Option`, first-match search, an
  order-keeping `Filter`, and pairwise/distinctness predicates with their
  lemmas.
- `models.dfy`: users, posts, groups, comments and follow rows as values;
  lookups by username, slug and (author, id); a post's 15-character label;
  the default post order (publication date, newest first), kept by
  inserting in date order.
- `pagination.dfy`: `Paginator.get_page` as used by every listing. Its
  page-number clamping, its page count and the slice of items a page holds.
- `social.dfy`: the follow table under follow and unfollow.
- `feeds.dfy`: the listings the pages show: an author's posts, a group's
  posts, a post's comments, and the following feed built by
  `follow_index`'s two loops.
- `store.dfy`: the database as a class with one `seq` field per table. Its
  `Valid` invariant covers unique ids and unique fields, foreign keys that
  resolve, posts kept in their default order, and at most one follow row
  per pair with no self-follow. Its deletes carry the schema's on-delete
  rules (PROTECT for a post's group, CASCADE otherwise).
- `cache.dfy`: the one cache entry the home page uses, with its expiry.
- `views.dfy`: the handlers. Read-only pages are functions of the tables.
  Handlers that write are methods that update the store (or the cache) and
  return a redirect, a "not found" or "show the form again" outcome.
- `scenarios.dfy`: the situations the application's tests set up. These
  are eleven posts on two pages, an empty group, the cached home page, and
  follow/unfollow.

Time is a parameter (`now`), never read from a clock. The logged-in user
is an account id that must exist; an anonymous visitor is `None`.

## Model

| member | source | states |
|---|---|---|
| Models.FindUser | yatube/posts/views.py:39 | The account with the username, or `None` exactly when no account has it (the 404 of `get_object_or_404`). |
| Models.FindGroup | yatube/posts/views.py:30 | The group with the slug, or `None` exactly when no group has it. |
| Models.FindPost | yatube/posts/views.py:64 | The post with that id written by the named account. It is `None` when the username is unknown, or when that author has no post with that id. |
| Models.PostLabel | yatube/posts/models.py:23-24 | A post's label is a prefix of its text: the whole text when at most 15 characters long, otherwise exactly 15 characters. |
| Models.HeadIsNewest | yatube/posts/models.py:20-21 | In a listing ordered by `-pub_date`, the first post is at least as new as every post. |
| Models.InsertByDate | yatube/posts/models.py:20-21 | Placing a new post in the date-ordered table adds exactly that post (same multiset plus one). It goes in front when it is the newest. |
| Models.InsertByDateKeepsOrder | yatube/posts/models.py:20-21 | Inserting by date keeps the table ordered newest first. |
| Models.PrependKeepsIdsUnique | yatube/posts/models.py:8 | A post whose id is not yet used can go in front of a listing without repeating an id. |
| Models.TailIdsUnique | yatube/posts/models.py:8 | In a listing with unique ids, the head's id is not in the tail, and the tail's ids are unique. |
| Models.InsertByDateKeepsIdsUnique | yatube/posts/models.py:8 | Inserting a post with a fresh id keeps post ids unique. |
| Pagination.NumPages | yatube/posts/views.py:19 | The page count is at least 1, and exactly enough pages of `perPage` items to hold the listing. An empty listing has one page. |
| Pagination.PageBounds | yatube/posts/views.py:21 | Every page number from 1 to the count starts inside the listing. Every page but the last is full, and the last reaches the end. |
| Pagination.PageNumberInRange | yatube/posts/views.py:21 | The page number `get_page` settles on exists (between 1 and the page count), and differs from a given number only when that number is out of range. |
| Pagination.GetPage | yatube/posts/views.py:19-21 | `get_page` picks page 1 for a missing or non-numeric number, the requested page when it is in range, and otherwise the last page. The page holds exactly the listing's slice from `(number-1)*perPage`: at most `perPage` items, full when there is a next page, reaching the end when there is none, and nonempty for a nonempty listing. |
| Pagination.PositionOnPage | yatube/posts/views.py:19-21 | Item `k`'s page number `k / perPage + 1` exists, and its offset on that page is below `perPage`. |
| Pagination.PageHoldsPosition | yatube/posts/views.py:19-21 | `get_page` asked for item `k`'s page number returns that page, which starts `k % perPage` items before item `k` and is long enough to hold it. |
| Pagination.ItemOnPage | yatube/posts/views.py:19-21 | Every item of a listing appears on page `k / perPage + 1` at offset `k % perPage`: paging loses nothing. |
| Social.FollowRows | yatube/posts/views.py:150-159 | After a follow, the pair is followed exactly when the user is not the author or was following already. No other pair changes. A self-follow or a repeat leaves the table as it was. |
| Social.UnfollowRows | yatube/posts/views.py:162-167 | After an unfollow the pair is not followed. No other pair changes. |
| Social.FollowIdempotent | yatube/posts/views.py:154-158 | Following twice is following once. |
| Social.FollowKeepsPairsUnique | yatube/posts/models.py:56-60 | Following keeps at most one row per (user, author) pair. |
| Social.OneRowAfterFollow | yatube/posts/models.py:56-60 | With unique pairs, one follow or two leave exactly one row for the pair. |
| Social.UnfollowAbsentIsNoop | yatube/posts/views.py:166 | Unfollowing an author one does not follow changes nothing. |
| Social.UnfollowRemovesOneRow | yatube/posts/views.py:166 | With unique pairs, unfollowing a followed author removes exactly one row. |
| Social.UnfollowCount | yatube/posts/views.py:166 | Unfollow removes every row of the pair and no other row. |
| Social.UnfollowUndoesFollow | yatube/posts/views.py:150-167 | From a state without the pair, a follow and then an unfollow restore the table exactly. |
| Feeds.PostsBy | yatube/posts/views.py:40 | An author's posts are exactly the table's posts by that author. They stay newest first and keep unique ids. |
| Feeds.PostsByAppend | yatube/posts/views.py:40 | An author's listing keeps the table's order: a post added at the end of the table is added at the end of its author's listing, and only there. |
| Feeds.PostsInGroup | yatube/posts/views.py:31 | A group's posts are exactly the table's posts in that group, newest first. |
| Feeds.CommentsOn | yatube/posts/views.py:66 | A post's comments are exactly the comments on it. |
| Feeds.RowsOf | yatube/posts/views.py:139 | A user's follow rows are exactly the rows with that user. Unique pairs stay unique. |
| Feeds.FollowFeed | yatube/posts/views.py:140-143 | The reference definition of what the two loops build: for each row in turn, all of its author's posts. Every post of the feed is a post of the table. |
| Feeds.FollowFeedAppend | yatube/posts/views.py:141-143 | The feed of two runs of rows, one after the other, is the first run's feed followed by the second's. |
| Feeds.FollowFeedMembers | yatube/posts/views.py:141-143 | A post is in the feed of a set of rows iff it is in the table and some row names its author. |
| Feeds.FollowFeedUnique | yatube/posts/views.py:141-143 | With unique post ids and rows naming different authors, no post appears twice. |
| Feeds.FollowingFeedMembers | yatube/posts/views.py:139-143 | A post is on a user's following page iff it is in the table and the user follows its author. |
| Feeds.FollowingFeedEmpty | yatube/posts/views.py:139-143 | A user who follows nobody has an empty following feed. |
| Feeds.FollowingFeedUnique | yatube/posts/views.py:139-143 | With unique follow pairs and unique post ids, the following feed repeats no post. |
| Feeds.RepeatedRowRepeatsPosts | yatube/posts/views.py:139-143 | Two identical follow rows put the author's posts in the feed twice: the loops do not de-duplicate. |
| Store.CascadedComments | yatube/posts/models.py:37-43 | The comments that survive deleting an account are exactly those it did not write and that are not on one of its posts. |
| Store.Store.constructor | yatube/posts/models.py:1-60 | An empty database over a set of accounts with unique ids and usernames is consistent. |
| Store.Store.CreateGroup | yatube/posts/models.py:27-30 | A taken slug creates nothing. Otherwise the group is appended with the next id, and the store stays consistent. |
| Store.Store.InsertPost | yatube/posts/models.py:8-21 | The post gets the next id, unused so far, and is placed by date. The store stays consistent. |
| Store.Store.UpdatePost | yatube/posts/views.py:103-104 | Only the text and group of the one post change; its id, author and date stay. |
| Store.Store.InsertComment | yatube/posts/views.py:115-119 | The comment is appended, tied to the post and the author. |
| Store.Store.InsertFollow | yatube/posts/views.py:158 | A row for a new, non-self pair is appended; pairs stay unique. |
| Store.Store.DeleteFollows | yatube/posts/views.py:166 | Every row of the pair is deleted; the store stays consistent. |
| Store.Store.DeleteGroup | yatube/posts/models.py:14-15 | PROTECT: the delete happens iff no post is in the group. Then only that group goes; otherwise nothing changes. |
| Store.Store.DeletePost | yatube/posts/models.py:37-40 | CASCADE: the post and every comment on it go; all else stays. |
| Store.Store.DeleteUser | yatube/posts/models.py:11-12 | CASCADE: the account and its posts go, along with the comments on those posts, its own comments, and every follow row naming it. Order is kept. |
| Store.Store.DeleteFollowsNaming | yatube/posts/models.py:49-54 | CASCADE on both follow keys: every row with the account on either side goes. |
| Store.Store.DeleteCommentsCascading | yatube/posts/models.py:37-43 | CASCADE on both comment keys: the comments that `CascadedComments` keeps remain. |
| Store.Store.DeletePostsBy | yatube/posts/models.py:11-12 | CASCADE on the post's author: once no comment refers to them, the account's posts go. |
| Store.Store.DeleteAccount | yatube/posts/models.py:5 | Once nothing refers to it, the account goes and its id is no longer in use. |
| Cache.TimelineCache.constructor | yatube/posts/views.py:15 | A new cache holds nothing. |
| Cache.TimelineCache.Get | yatube/posts/views.py:15-16 | A read finds the stored listing iff the entry is live (set, and not yet expired); what it finds is newest first. |
| Cache.TimelineCache.Set | yatube/posts/views.py:18 | A newest-first listing is stored until `now + timeout`. A positive timeout makes it live now. |
| Cache.TimelineCache.Clear | yatube/posts/tests/test_views.py:195 | After a clear, nothing is live at any time. |
| Views.GroupPosts | yatube/posts/views.py:29-35 | Missing iff no group has the slug. Otherwise the page is the requested page of that group's posts. |
| Views.Profile | yatube/posts/views.py:38-60 | Missing iff no account has the username. Otherwise: the page of the author's posts; `post` is some post of the author iff the author has one, and the newest when the table is date-ordered; `following` holds iff a logged-in viewer follows the author. |
| Views.FollowingFlag | yatube/posts/views.py:45-50 | The `following` flag of the profile and post pages: a logged-in viewer with a follow row for the author. |
| Views.CanEdit | yatube/posts/views.py:98 | Only the post's author gets past the edit gate. |
| Views.Accepted | yatube/posts/views.py:87 | A post form is saved iff it was submitted and its group, if any, exists. |
| Views.PostView | yatube/posts/views.py:63-81 | Missing iff the named author has no post with that id. Otherwise: that post, exactly its comments, and the following flag for a logged-in viewer. |
| Views.Index | yatube/posts/views.py:13-26 | On a live cache entry the cached listing is served and the entry is untouched, whatever the posts table holds now. On a miss the store's posts table is served and cached until `now + 20`. Either way the entry is live afterwards, the cache holds only newest-first listings, and the page served is newest first. |
| Models.SliceKeepsOrder | yatube/posts/models.py:20-21 | Any stretch of a newest-first listing, such as one page of it, is newest first. |
| Views.FollowIndex | yatube/posts/views.py:137-147 | The page is the requested page of the feed that the two loops build from the user's follow rows. |
| Views.CollectFeed | yatube/posts/views.py:140-143 | The outer loop builds exactly `FollowFeed` of the rows it visits. |
| Views.AppendEach | yatube/posts/views.py:142-143 | The inner loop appends every post of the author, in order. |
| Views.ProfileFollow | yatube/posts/views.py:150-159 | Unknown author: not found, no change. Otherwise the redirect to the profile, with the follow table updated as `FollowRows` says. The store stays consistent. |
| Views.ProfileUnfollow | yatube/posts/views.py:162-167 | Unknown author: not found, no change. Otherwise the redirect to the profile, with the follow table updated as `UnfollowRows` says. |
| Views.NewPost | yatube/posts/views.py:84-92 | A rejected form is shown again and nothing is saved. An accepted one saves the post by the logged-in user at `now` and redirects home. |
| Views.PostEdit | yatube/posts/views.py:95-106 | Not found when the author has no such post. Anyone but its author is redirected to the post with nothing saved. A rejected form is shown again. An accepted form replaces only text and group, then redirects to the post. |
| Views.AddComment | yatube/posts/views.py:109-121 | Not found when the author has no such post. Without a submission the form is shown again. Otherwise one comment by the user on that post is appended, then the browser is redirected to the post. |
| Scenarios.ElevenPostsTwoPages | yatube/posts/tests/test_views.py:219-224 | Eleven posts: page 1 holds the first ten and has a next page; page 2 holds the eleventh; any later page number gives page 2. |
| Scenarios.EmptyGroupHasEmptyPage | yatube/posts/tests/test_views.py:328-332 | A group without posts is found and its page is empty. |
| Scenarios.FollowingFlagTracksFollows | yatube/posts/tests/test_views.py:80-106 | The following flag is set by a follow of another user and cleared by an unfollow. It is never set for an anonymous viewer. |
| Scenarios.ShortListingIsFirstPage | yatube/posts/views.py:19-21 | A listing of at most ten posts is the whole first page. |

The methods `Scenarios.CacheHidesNewPost`, `Scenarios.ClearShowsNewPost`,
`Scenarios.CacheExpires` (all three starting from
`Scenarios.OnePostCached`) and `Scenarios.FollowThenUnfollow` replay
`test_cache_index_page` (yatube/posts/tests/test_views.py:186-199, and the
entry's expiry) and
`test_follow_authorized_user` (yatube/posts/tests/test_views.py:80-106) as
sequences of calls on a store and a cache whose outcomes are asserted.

Two facts of the code worth knowing:

- For a page number below 1, Django's `get_page` serves the last page.
- `follow_index` does not de-duplicate: the feed is the concatenation of
  each followed author's posts, in follow-row order. It is not globally
  ordered by date, and a repeated follow row would repeat posts
  (`Feeds.RepeatedRowRepeatsPosts`). Repeats cannot arise through the
  views, because `ProfileFollow` checks for an existing row and the store
  keeps follow pairs unique (`Feeds.FollowingFeedUnique`).

## Left out

- Rendering, templates, HTTP status codes, URL routing and the `page_not_found`/`server_error` handlers: outcomes are tags (`NotFound`, `Redirect`, `ShowForm`).
- `login_required` and `require_GET`: a handler that needs a login takes an existing account id as a precondition; an anonymous request is never passed to it.
- Form validation: a post form is accepted iff submitted with an existing (or no) group, and a comment form iff submitted. Empty-text checks and the comment's `max_length=1000` are not modelled.
- Images (`Post.image`) and uploaded files.
- Wall-clock time: `pub_date`, `created` and the cache's clock are the `now` parameter.
- The real cache backend: one entry, and an expired entry is not deleted by a read (it is merely not live).
- Django's order among posts with equal `pub_date`: any order that is newest first is accepted.
- `Follow.Meta.constraints` is assigned a single `UniqueConstraint` instead of a list, so the database may not enforce it. Uniqueness of follow pairs is kept as a store invariant that the follow view's pre-check maintains.
- Comment ids, the `about` pages, and account creation or authentication (accounts are given to the store's constructor).
- Models.GroupLabel: a group's label is its title; it carries no contract of its own.
- The order of follow rows: `Follow` declares no ordering, so the database may return a user's rows in any order, and with it the order of the author blocks in the following feed. The model visits rows in insertion order.
- The `distinct()` calls in `follow_index`: rows and posts already have unique ids, so they remove nothing.

/**
 * The follow table: rows `Follow(user, author)` in insertion order, and the
 * two updates the follow and unfollow views make to it.
 */
module Social {
  import opened Seqs
  import opened Models

  /** Whether a row records that `user` follows `author`. */
  predicate IsFollowing(rows: seq<Follow>, user: UserId, author: UserId)
  {
    Follow(user, author) in rows
  }

  /** The follow view's update: a new row unless it is a self-follow or the pair is already there. */
  function FollowRows(rows: seq<Follow>, user: UserId, author: UserId): (r: seq<Follow>)
    ensures IsFollowing(r, user, author) <==> user != author || IsFollowing(rows, user, author)
    ensures forall f :: f != Follow(user, author) ==> (f in r <==> f in rows)
    ensures user == author || IsFollowing(rows, user, author) ==> r == rows
    ensures |r| <= |rows| + 1
  {
    if user != author && !IsFollowing(rows, user, author) then rows + [Follow(user, author)] else rows
  }

  /** The unfollow view's update: every row for the pair is deleted, nothing else. */
  function UnfollowRows(rows: seq<Follow>, user: UserId, author: UserId): (r: seq<Follow>)
    ensures !IsFollowing(r, user, author)
    ensures forall f :: f != Follow(user, author) ==> (f in r <==> f in rows)
  {
    Filter(rows, (f: Follow) => f != Follow(user, author))
  }

  /** Following twice is following once. */
  lemma FollowIdempotent(rows: seq<Follow>, user: UserId, author: UserId)
    ensures FollowRows(FollowRows(rows, user, author), user, author) == FollowRows(rows, user, author)
  {
  }

  /** The follow update never creates a second row for a pair. */
  lemma {:induction false} FollowKeepsPairsUnique(rows: seq<Follow>, user: UserId, author: UserId)
    requires Distinct(rows)
    ensures Distinct(FollowRows(rows, user, author))
  {
    var r := FollowRows(rows, user, author);
    if r != rows {
      forall i, j | 0 <= i < j < |r| ensures NotSame(r[i], r[j]) {
        if j == |rows| {
          assert r[i] == rows[i];
        } else {
          assert r[i] == rows[i] && r[j] == rows[j];
        }
      }
    }
  }

  /**
   * Once a user has followed another user, exactly one row records the pair,
   * however often the follow is repeated.
   */
  lemma OneRowAfterFollow(rows: seq<Follow>, user: UserId, author: UserId)
    requires Distinct(rows) && user != author
    ensures multiset(FollowRows(rows, user, author))[Follow(user, author)] == 1
    ensures multiset(FollowRows(FollowRows(rows, user, author), user, author))[Follow(user, author)] == 1
  {
    FollowKeepsPairsUnique(rows, user, author);
    DistinctOccursOnce(FollowRows(rows, user, author), Follow(user, author));
    FollowIdempotent(rows, user, author);
  }

  /** Unfollowing a pair nobody follows leaves the table as it was. */
  lemma UnfollowAbsentIsNoop(rows: seq<Follow>, user: UserId, author: UserId)
    requires !IsFollowing(rows, user, author)
    ensures UnfollowRows(rows, user, author) == rows
  {
    FilterKeepsAll(rows, (f: Follow) => f != Follow(user, author));
  }

  /** With unique rows, unfollowing a followed pair deletes exactly one row. */
  lemma {:induction false} UnfollowRemovesOneRow(rows: seq<Follow>, user: UserId, author: UserId)
    requires Distinct(rows)
    ensures IsFollowing(rows, user, author) ==> |UnfollowRows(rows, user, author)| == |rows| - 1
  {
    DistinctOccursOnce(rows, Follow(user, author));
    UnfollowCount(rows, user, author);
  }

  /** Unfollowing deletes as many rows as the pair had. */
  lemma {:induction false} UnfollowCount(rows: seq<Follow>, user: UserId, author: UserId)
    ensures |UnfollowRows(rows, user, author)| == |rows| - multiset(rows)[Follow(user, author)]
  {
    if rows != [] {
      UnfollowCount(rows[1..], user, author);
      assert rows == [rows[0]] + rows[1..];
      assert multiset(rows) == multiset{rows[0]} + multiset(rows[1..]);
    }
  }

  /** Unfollow undoes a follow of a pair that was not followed before. */
  lemma UnfollowUndoesFollow(rows: seq<Follow>, user: UserId, author: UserId)
    requires !IsFollowing(rows, user, author)
    ensures UnfollowRows(FollowRows(rows, user, author), user, author) == rows
  {
    var keep := (f: Follow) => f != Follow(user, author);
    if user != author {
      FilterAppend(rows, [Follow(user, author)], keep);
      assert Filter([Follow(user, author)], keep) == [];
    }
    FilterKeepsAll(rows, keep);
  }
}

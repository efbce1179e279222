/**
 * The like helpers: a listing's likes are a sequence of user ids, meant to
 * hold each id at most once, though nothing here enforces that.
 */
module Likes {
  import opened Wrappers

  /** `likesArray.includes(userId)`: a left-to-right scan with exact string comparison. */
  function HasUserLiked(likes: seq<string>, userId: string): (liked: bool)
    ensures liked <==> userId in likes
  {
    if likes == [] then false else likes[0] == userId || HasUserLiked(likes[1..], userId)
  }

  /** `likesArray.filter(id => id !== userId)` */
  function RemoveAll(likes: seq<string>, userId: string): (r: seq<string>)
    ensures userId !in r
    ensures forall x :: x != userId ==> multiset(r)[x] == multiset(likes)[x]
    ensures |r| == |likes| - multiset(likes)[userId]
  {
    if likes == [] then []
    else
      var rest := RemoveAll(likes[1..], userId);
      assert likes == [likes[0]] + likes[1..];
      if likes[0] == userId then rest else [likes[0]] + rest
  }

  /** Filtering distributes over concatenation, so the kept ids stay in their original order. */
  lemma {:induction false} RemoveAllAppend(a: seq<string>, b: seq<string>, userId: string)
    ensures RemoveAll(a + b, userId) == RemoveAll(a, userId) + RemoveAll(b, userId)
  {
    if a == [] {
      assert a + b == b;
    } else {
      assert (a + b)[0] == a[0] && (a + b)[1..] == a[1..] + b;
      RemoveAllAppend(a[1..], b, userId);
    }
  }

  /** Removing an id that is absent changes nothing. */
  lemma {:induction false} RemoveAllAbsent(likes: seq<string>, userId: string)
    requires userId !in likes
    ensures RemoveAll(likes, userId) == likes
  {
    if likes != [] {
      RemoveAllAbsent(likes[1..], userId);
    }
  }

  /**
   * `toggleLikeInArray`: when the user is present, every occurrence is
   * removed; otherwise the user is appended at the end.
   */
  function ToggleLikeInArray(likes: seq<string>, userId: string): (r: seq<string>)
    ensures HasUserLiked(r, userId) == !HasUserLiked(likes, userId)
    ensures forall x :: x != userId ==> multiset(r)[x] == multiset(likes)[x]
    ensures userId !in likes ==> |r| == |likes| + 1 && r[..|likes|] == likes && r[|likes|] == userId
    ensures userId in likes ==> r == RemoveAll(likes, userId)
  {
    if HasUserLiked(likes, userId) then RemoveAll(likes, userId) else likes + [userId]
  }

  /** `likesArray?.length || 0`: a missing array counts as no likes; duplicates are counted. */
  function GetLikeCount(likes: Option<seq<string>>): nat {
    match likes
    case Some(l) => |l|
    case None => 0
  }

  /** Toggling a user who had not liked, twice, gives back the original sequence. */
  lemma ToggleTwiceRestores(likes: seq<string>, userId: string)
    requires !HasUserLiked(likes, userId)
    ensures ToggleLikeInArray(ToggleLikeInArray(likes, userId), userId) == likes
  {
    RemoveAllAppend(likes, [userId], userId);
    RemoveAllAbsent(likes, userId);
  }

  /**
   * Toggling a user who had liked, twice, moves that user to the end and
   * drops any duplicates of them.
   */
  lemma ToggleTwiceMovesToEnd(likes: seq<string>, userId: string)
    requires HasUserLiked(likes, userId)
    ensures ToggleLikeInArray(ToggleLikeInArray(likes, userId), userId) == RemoveAll(likes, userId) + [userId]
  {
  }

  /** A like count after a toggle: one more, or fewer by every duplicate of the user. */
  lemma ToggleLikeCount(likes: seq<string>, userId: string)
    ensures GetLikeCount(Some(ToggleLikeInArray(likes, userId)))
            == if userId in likes then |likes| - multiset(likes)[userId] else |likes| + 1
  {
  }

  /** Each id appears at most once: a well-formed like set. */
  predicate NoDuplicates(likes: seq<string>) {
    forall i, j :: 0 <= i < j < |likes| ==> likes[i] != likes[j]
  }

  lemma {:induction false} RemoveAllKeepsNoDuplicates(likes: seq<string>, userId: string)
    requires NoDuplicates(likes)
    ensures NoDuplicates(RemoveAll(likes, userId))
  {
    if likes != [] {
      RemoveAllKeepsNoDuplicates(likes[1..], userId);
      var rest := RemoveAll(likes[1..], userId);
      if likes[0] != userId {
        assert likes[0] !in likes[1..];
        assert multiset(rest)[likes[0]] == 0;
        assert likes[0] !in rest;
      }
    }
  }

  /**
   * On a well-formed like set a toggle keeps it well formed and changes
   * the count by exactly one.
   */
  lemma ToggleKeepsNoDuplicates(likes: seq<string>, userId: string)
    requires NoDuplicates(likes)
    ensures NoDuplicates(ToggleLikeInArray(likes, userId))
    ensures GetLikeCount(Some(ToggleLikeInArray(likes, userId)))
            == if userId in likes then |likes| - 1 else |likes| + 1
  {
    if userId in likes {
      RemoveAllKeepsNoDuplicates(likes, userId);
      OccursOnce(likes, userId);
    }
  }

  /** In a like set without duplicates, a present user occurs exactly once. */
  lemma {:induction false} OccursOnce(likes: seq<string>, userId: string)
    requires NoDuplicates(likes) && userId in likes
    ensures multiset(likes)[userId] == 1
  {
    var tail := likes[1..];
    assert likes == [likes[0]] + tail;
    if likes[0] == userId {
      forall j | 0 <= j < |tail| ensures tail[j] != userId {
        assert tail[j] == likes[j + 1];
      }
      assert userId !in tail;
    } else {
      forall i, j | 0 <= i < j < |tail| ensures tail[i] != tail[j] {
        assert tail[i] == likes[i + 1] && tail[j] == likes[j + 1];
      }
      OccursOnce(tail, userId);
    }
  }

  /** The number of distinct users among the likes. */
  function DistinctUsers(likes: seq<string>): set<string> {
    set x | x in likes
  }

  /**
   * The count never falls below the number of distinct users, and equals it
   * on a well-formed like set.
   */
  lemma {:induction false} LikeCountVersusDistinctUsers(likes: seq<string>)
    ensures |DistinctUsers(likes)| <= GetLikeCount(Some(likes))
    ensures NoDuplicates(likes) ==> |DistinctUsers(likes)| == GetLikeCount(Some(likes))
  {
    if likes != [] {
      LikeCountVersusDistinctUsers(likes[1..]);
      assert DistinctUsers(likes) == {likes[0]} + DistinctUsers(likes[1..]);
      if NoDuplicates(likes) {
        assert NoDuplicates(likes[1..]);
        assert likes[0] !in DistinctUsers(likes[1..]);
      }
    }
  }
}

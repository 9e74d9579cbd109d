/**
 * Likes on the community feed (src/pages/Community/index.tsx): whether the
 * current user likes a workout, the local update of a workout's likes when the
 * user toggles, and the set of workout identifiers with a like request in flight.
 */
module Community {
  import opened Seqs
  import opened WorkoutTypes

  /** `like.userId === userId` */
  function ByUser(userId: string): WorkoutLike -> bool {
    (l: WorkoutLike) => l.userId == userId
  }

  /** `like.userId !== userId` */
  function NotByUser(userId: string): WorkoutLike -> bool {
    (l: WorkoutLike) => l.userId != userId
  }

  /** `isLiked`: some like of the workout is the user's. */
  predicate IsLiked(workout: Workout, userId: string) {
    Any(workout.likes, ByUser(userId))
  }

  /** How many of the likes are the user's. */
  function LikeCount(likes: seq<WorkoutLike>, userId: string): nat {
    |Filter(likes, ByUser(userId))|
  }

  /**
   * The new likes of the toggled workout: all of the user's likes removed if
   * there is one, otherwise one like of the user's appended.
   */
  function ToggledLikes(likes: seq<WorkoutLike>, userId: string): (r: seq<WorkoutLike>)
    ensures Any(r, ByUser(userId)) <==> !Any(likes, ByUser(userId))
    ensures Any(likes, ByUser(userId)) ==> |r| == |likes| - LikeCount(likes, userId)
    ensures !Any(likes, ByUser(userId)) ==> |r| == |likes| + 1 && r[|likes|] == WorkoutLike(userId)
  {
    if Any(likes, ByUser(userId)) then
      var kept := Filter(likes, NotByUser(userId));
      assert forall k :: 0 <= k < |kept| ==> kept[k] in kept;
      CountsAddUp(likes, userId);
      kept
    else
      var r := likes + [WorkoutLike(userId)];
      assert ByUser(userId)(r[|likes|]);
      r
  }

  /** Each like is the user's or someone else's. */
  lemma {:induction false} CountsAddUp(likes: seq<WorkoutLike>, userId: string)
    ensures |Filter(likes, ByUser(userId))| + |Filter(likes, NotByUser(userId))| == |likes|
  {
    if likes != [] {
      assert likes == [likes[0]] + likes[1..];
      FilterConcat([likes[0]], likes[1..], ByUser(userId));
      FilterConcat([likes[0]], likes[1..], NotByUser(userId));
      FilterSingleton(likes[0], ByUser(userId));
      FilterSingleton(likes[0], NotByUser(userId));
      CountsAddUp(likes[1..], userId);
    }
  }

  /** A toggle leaves the other users' likes exactly as they were, in order. */
  lemma ToggleKeepsOtherLikes(likes: seq<WorkoutLike>, userId: string)
    ensures Filter(ToggledLikes(likes, userId), NotByUser(userId)) == Filter(likes, NotByUser(userId))
  {
    if Any(likes, ByUser(userId)) {
      FilterIdempotent(likes, NotByUser(userId));
    } else {
      FilterConcat(likes, [WorkoutLike(userId)], NotByUser(userId));
      FilterSingleton(WorkoutLike(userId), NotByUser(userId));
    }
  }

  /** Liking and then unliking a workout the user had not liked restores its likes. */
  lemma ToggleLikesTwice(likes: seq<WorkoutLike>, userId: string)
    requires !Any(likes, ByUser(userId))
    ensures ToggledLikes(ToggledLikes(likes, userId), userId) == likes
  {
    var liked := likes + [WorkoutLike(userId)];
    assert ByUser(userId)(liked[|likes|]);
    FilterConcat(likes, [WorkoutLike(userId)], NotByUser(userId));
    FilterSingleton(WorkoutLike(userId), NotByUser(userId));
    FilterKeepsAll(likes, NotByUser(userId));
  }

  /** A user with at most one like keeps at most one, and whether they like the workout flips. */
  lemma ToggleKeepsAtMostOneLike(likes: seq<WorkoutLike>, userId: string)
    requires LikeCount(likes, userId) <= 1
    ensures LikeCount(ToggledLikes(likes, userId), userId) <= 1
    ensures Any(ToggledLikes(likes, userId), ByUser(userId)) != Any(likes, ByUser(userId))
  {
    if Any(likes, ByUser(userId)) {
      var kept := Filter(likes, NotByUser(userId));
      forall k | 0 <= k < |kept| ensures !ByUser(userId)(kept[k]) {
        assert kept[k] in kept;
      }
      FilterKeepsNone(kept, ByUser(userId));
    } else {
      FilterKeepsNone(likes, ByUser(userId));
      FilterConcat(likes, [WorkoutLike(userId)], ByUser(userId));
      FilterSingleton(WorkoutLike(userId), ByUser(userId));
    }
  }

  /** `workout.id === id ? { ...workout, likes: updatedLikes } : workout` */
  function ToggleIfId(id: string, userId: string): Workout -> Workout {
    (w: Workout) => if w.id == id then w.(likes := ToggledLikes(w.likes, userId)) else w
  }

  /**
   * The local update of `toogleLike`: only the workouts with the identifier
   * change, and only in their likes.
   */
  function ToggleLikeIn(workouts: seq<Workout>, id: string, userId: string): (r: seq<Workout>)
    ensures |r| == |workouts|
    ensures forall k :: 0 <= k < |r| && workouts[k].id != id ==> r[k] == workouts[k]
    ensures forall k :: 0 <= k < |r| && workouts[k].id == id ==>
      r[k] == workouts[k].(likes := r[k].likes) && r[k].likes == ToggledLikes(workouts[k].likes, userId)
    ensures forall k :: 0 <= k < |r| && workouts[k].id == id ==>
      (IsLiked(r[k], userId) <==> !IsLiked(workouts[k], userId))
  {
    Map(workouts, ToggleIfId(id, userId))
  }

  /** Toggling twice restores the feed when the user liked none of the workouts with the identifier. */
  lemma ToggleLikeInTwice(workouts: seq<Workout>, id: string, userId: string)
    requires forall k :: 0 <= k < |workouts| && workouts[k].id == id ==> !IsLiked(workouts[k], userId)
    ensures ToggleLikeIn(ToggleLikeIn(workouts, id, userId), id, userId) == workouts
  {
    var once := ToggleLikeIn(workouts, id, userId);
    var twice := ToggleLikeIn(once, id, userId);
    forall k | 0 <= k < |workouts| ensures twice[k] == workouts[k] {
      if workouts[k].id == id {
        ToggleLikesTwice(workouts[k].likes, userId);
      }
    }
  }

  /** The page state that `toogleLike` updates. */
  class CommunityPage {
    const userId: string
    var workouts: seq<Workout>
    var loadingLikes: set<string>

    constructor (userId: string)
      ensures this.userId == userId && workouts == [] && loadingLikes == {}
    {
      this.userId := userId;
      workouts, loadingLikes := [], {};
    }

    /** The success branch of `fetchPublicWorkouts`: the feed becomes the response. */
    method ReceivePublicWorkouts(data: seq<Workout>)
      modifies this
      ensures workouts == data && loadingLikes == old(loadingLikes)
    {
      workouts := data;
    }

    /** Start of `toogleLike`: the workout's like request is now in flight. */
    method BeginToggleLike(id: string)
      modifies this
      ensures loadingLikes == old(loadingLikes) + {id}
      ensures workouts == old(workouts)
    {
      loadingLikes := loadingLikes + {id};
    }

    /**
     * End of `toogleLike`, once the like request has settled: the likes are
     * updated whether or not the request succeeded (its failure is only
     * reported), and the workout is no longer in flight.
     */
    method FinishToggleLike(id: string, requestSucceeded: bool)
      modifies this
      ensures workouts == ToggleLikeIn(old(workouts), id, userId)
      ensures loadingLikes == old(loadingLikes) - {id}
    {
      workouts := ToggleLikeIn(workouts, id, userId);
      loadingLikes := loadingLikes - {id};
    }

    /** `toogleLike` with nothing else happening while the request is in flight. */
    method ToggleLike(id: string, requestSucceeded: bool)
      modifies this
      ensures workouts == ToggleLikeIn(old(workouts), id, userId)
      ensures loadingLikes == old(loadingLikes) - {id}
      ensures forall other :: other != id ==> (other in loadingLikes <==> other in old(loadingLikes))
    {
      BeginToggleLike(id);
      FinishToggleLike(id, requestSucceeded);
    }
  }
}

/**
 * Which workouts are expanded on the workout list (src/pages/WorkoutList/index.tsx):
 * the `openWorkouts` identifiers and how `toggleWorkout` changes them.
 */
module WorkoutList {
  import opened Seqs

  /** `id !== workoutId` */
  function NotId(workoutId: string): string -> bool {
    (id: string) => id != workoutId
  }

  /** The new `openWorkouts`: every occurrence removed if present, otherwise appended. */
  function Toggled(openWorkouts: seq<string>, workoutId: string): (r: seq<string>)
    ensures workoutId in r <==> workoutId !in openWorkouts
    ensures workoutId !in openWorkouts ==> r == openWorkouts + [workoutId]
    ensures forall id :: id != workoutId ==> (id in r <==> id in openWorkouts)
  {
    if workoutId in openWorkouts then Filter(openWorkouts, NotId(workoutId))
    else openWorkouts + [workoutId]
  }

  /** The other identifiers keep their order: filtered out, old and new are the same sequence. */
  lemma ToggleKeepsOthersInOrder(openWorkouts: seq<string>, workoutId: string)
    ensures Filter(Toggled(openWorkouts, workoutId), NotId(workoutId)) == Filter(openWorkouts, NotId(workoutId))
  {
    if workoutId in openWorkouts {
      FilterIdempotent(openWorkouts, NotId(workoutId));
    } else {
      FilterConcat(openWorkouts, [workoutId], NotId(workoutId));
      FilterSingleton(workoutId, NotId(workoutId));
    }
  }

  /** Opening and then closing a closed workout restores the list. */
  lemma ToggleTwice(openWorkouts: seq<string>, workoutId: string)
    requires workoutId !in openWorkouts
    ensures Toggled(Toggled(openWorkouts, workoutId), workoutId) == openWorkouts
  {
    FilterConcat(openWorkouts, [workoutId], NotId(workoutId));
    FilterSingleton(workoutId, NotId(workoutId));
    FilterKeepsAll(openWorkouts, NotId(workoutId));
  }

  /** A list without repeated identifiers stays without them. */
  lemma ToggleKeepsNoDuplicates(openWorkouts: seq<string>, workoutId: string)
    requires NoDuplicates(openWorkouts)
    ensures NoDuplicates(Toggled(openWorkouts, workoutId))
  {
    var r := Toggled(openWorkouts, workoutId);
    if workoutId in openWorkouts {
      FilterMultiset(openWorkouts, NotId(workoutId));
    } else {
      forall id ensures multiset(r)[id] <= 1 {
        assert multiset(r) == multiset(openWorkouts) + multiset{workoutId};
      }
    }
  }

  /** The list page's state: the identifiers of the expanded workouts. */
  class WorkoutListPage {
    var openWorkouts: seq<string>

    constructor ()
      ensures openWorkouts == []
    {
      openWorkouts := [];
    }

    /** `isOpen`: the workout is expanded. */
    predicate IsOpen(workoutId: string)
      reads this
    {
      workoutId in openWorkouts
    }

    /** `toggleWorkout` */
    method ToggleWorkout(workoutId: string)
      modifies this
      ensures openWorkouts == Toggled(old(openWorkouts), workoutId)
      ensures IsOpen(workoutId) <==> !old(IsOpen(workoutId))
    {
      openWorkouts := Toggled(openWorkouts, workoutId);
    }
  }
}

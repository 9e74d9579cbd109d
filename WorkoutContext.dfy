/**
 * The workout state layer of the WorkoutProvider (src/context/WorkoutContext.tsx):
 * read-only lookups and derived views over the catalog and the active
 * session, and the provider's state with the operations that replace it.
 */
module WorkoutContext {
  import opened Wrappers
  import opened Seqs
  import opened WorkoutTypes

  // ---------------------------------------------------------------------------
  // Lookups by exercise identifier
  // ---------------------------------------------------------------------------

  /** `exercise.id === exerciseId`; an exercise without an identifier never matches. */
  function HasId(exerciseId: string): Exercise -> bool {
    (e: Exercise) => e.id == Some(exerciseId)
  }

  /** `workout.exercises.some((exercise) => exercise.id === exerciseId)` */
  function ContainsExercise(exerciseId: string): Workout -> bool {
    (w: Workout) => Any(w.exercises, HasId(exerciseId))
  }

  /** Some exercise of some workout of the catalog has this identifier. */
  predicate InCatalog(workouts: seq<Workout>, exerciseId: string) {
    exists i, k ::
      0 <= i < |workouts| && 0 <= k < |workouts[i].exercises| &&
      workouts[i].exercises[k].id == Some(exerciseId)
  }

  /** `getWorkoutByExerciseId`: a workout holding the exercise, or none when no workout does. */
  function GetWorkoutByExerciseId(workouts: seq<Workout>, exerciseId: string): (r: Option<Workout>)
    ensures r.None? <==> !InCatalog(workouts, exerciseId)
    ensures r.Some? ==> r.value in workouts && Any(r.value.exercises, HasId(exerciseId))
  {
    Find(workouts, ContainsExercise(exerciseId))
  }

  /** The workout returned is the first one, in catalog order, that holds the exercise. */
  lemma GetWorkoutByExerciseIdIsFirst(workouts: seq<Workout>, exerciseId: string, i: nat)
    requires i < |workouts| && Any(workouts[i].exercises, HasId(exerciseId))
    requires forall j :: 0 <= j < i ==> !Any(workouts[j].exercises, HasId(exerciseId))
    ensures GetWorkoutByExerciseId(workouts, exerciseId) == Some(workouts[i])
  {
    FindFirst(workouts, ContainsExercise(exerciseId), i);
  }

  /**
   * How a session record is joined to the catalog: find the workout that holds
   * the exercise, then find the exercise inside that workout.
   */
  function ResolveExercise(workouts: seq<Workout>, exerciseId: string): (r: Option<Exercise>)
    ensures r.None? <==> !InCatalog(workouts, exerciseId)
    ensures r.Some? ==> r.value.id == Some(exerciseId)
    ensures r.Some? ==> exists i :: 0 <= i < |workouts| && r.value in workouts[i].exercises
  {
    match GetWorkoutByExerciseId(workouts, exerciseId)
    case None => None
    case Some(w) => Find(w.exercises, HasId(exerciseId))
  }

  /**
   * The exercise a record resolves to is the first matching exercise of the
   * first workout that holds one.
   */
  lemma ResolveExerciseIsFirstMatch(workouts: seq<Workout>, exerciseId: string, i: nat, k: nat)
    requires i < |workouts| && k < |workouts[i].exercises|
    requires workouts[i].exercises[k].id == Some(exerciseId)
    requires forall j :: 0 <= j < i ==> !Any(workouts[j].exercises, HasId(exerciseId))
    requires forall m :: 0 <= m < k ==> workouts[i].exercises[m].id != Some(exerciseId)
    ensures ResolveExercise(workouts, exerciseId) == Some(workouts[i].exercises[k])
  {
    assert HasId(exerciseId)(workouts[i].exercises[k]);
    GetWorkoutByExerciseIdIsFirst(workouts, exerciseId, i);
    FindFirst(workouts[i].exercises, HasId(exerciseId), k);
  }

  // ---------------------------------------------------------------------------
  // Derived views over the active session
  // ---------------------------------------------------------------------------

  /** `exerciseSession.completed` compared with the flag a view selects on. */
  function HasCompleted(completed: bool): ExerciseSession -> bool {
    (s: ExerciseSession) => s.completed == completed
  }

  /** The catalog exercise a session record refers to, if it is still there. */
  function Resolver(workouts: seq<Workout>): ExerciseSession -> Option<Exercise> {
    (s: ExerciseSession) => ResolveExercise(workouts, s.exercise.id)
  }

  /**
   * The body shared by both views: keep the records with the given completion
   * flag, resolve each against the catalog, and drop those that do not resolve.
   */
  function ExercisesWithDetails(workouts: seq<Workout>, records: seq<ExerciseSession>, completed: bool): (r: seq<Exercise>)
    ensures |r| <= |records|
    ensures forall e :: e in r ==> e.id.Some? && InCatalog(workouts, e.id.value)
  {
    var resolved := Map(Filter(records, HasCompleted(completed)), Resolver(workouts));
    var r := Somes(resolved);
    assert forall e :: e in r ==> exists j :: 0 <= j < |resolved| && resolved[j] == Some(e);
    r
  }

  /** Every exercise of a view comes from a record with the view's flag that resolves to it. */
  lemma ExercisesWithDetailsSound(workouts: seq<Workout>, records: seq<ExerciseSession>, completed: bool)
    ensures forall e :: e in ExercisesWithDetails(workouts, records, completed) ==>
      exists k :: 0 <= k < |records| && records[k].completed == completed &&
        ResolveExercise(workouts, records[k].exercise.id) == Some(e)
  {
    var kept := Filter(records, HasCompleted(completed));
    var mapped := Map(kept, Resolver(workouts));
    forall e | e in Somes(mapped)
      ensures exists k :: (0 <= k < |records| && records[k].completed == completed &&
                           ResolveExercise(workouts, records[k].exercise.id) == Some(e))
    {
      assert Some(e) in mapped;
      var j :| 0 <= j < |mapped| && mapped[j] == Some(e);
      assert kept[j] in kept;
      var k :| 0 <= k < |records| && records[k] == kept[j];
      assert ResolveExercise(workouts, records[k].exercise.id) == Some(e);
    }
  }

  /** A view of one record followed by others: the record contributes at most its own exercise, first. */
  lemma ExercisesWithDetailsCons(workouts: seq<Workout>, record: ExerciseSession, rest: seq<ExerciseSession>, completed: bool)
    ensures ExercisesWithDetails(workouts, [record] + rest, completed) ==
      (if record.completed == completed && InCatalog(workouts, record.exercise.id)
       then [ResolveExercise(workouts, record.exercise.id).value] else [])
      + ExercisesWithDetails(workouts, rest, completed)
  {
    var p, f := HasCompleted(completed), Resolver(workouts);
    FilterConcat([record], rest, p);
    FilterSingleton(record, p);
    MapConcat(Filter([record], p), Filter(rest, p), f);
    SomesConcat(Map(Filter([record], p), f), Map(Filter(rest, p), f));
    if p(record) {
      assert Map([record], f) == [f(record)];
      SomesSingleton(f(record));
    } else {
      assert Map([], f) == [];
      assert Somes<Exercise>([]) == [];
    }
  }

  /** The views follow session order: the view of a concatenation is the concatenation of the views. */
  lemma ExercisesWithDetailsConcat(workouts: seq<Workout>, a: seq<ExerciseSession>, b: seq<ExerciseSession>, completed: bool)
    ensures ExercisesWithDetails(workouts, a + b, completed) ==
      ExercisesWithDetails(workouts, a, completed) + ExercisesWithDetails(workouts, b, completed)
  {
    var p, f := HasCompleted(completed), Resolver(workouts);
    FilterConcat(a, b, p);
    MapConcat(Filter(a, p), Filter(b, p), f);
    SomesConcat(Map(Filter(a, p), f), Map(Filter(b, p), f));
  }

  /** Every record with the view's flag whose exercise is in the catalog contributes that exercise. */
  lemma ExercisesWithDetailsComplete(workouts: seq<Workout>, records: seq<ExerciseSession>, completed: bool, k: nat)
    requires k < |records| && records[k].completed == completed
    requires InCatalog(workouts, records[k].exercise.id)
    ensures ResolveExercise(workouts, records[k].exercise.id).value in ExercisesWithDetails(workouts, records, completed)
  {
    assert records == records[..k] + ([records[k]] + records[k + 1..]);
    ExercisesWithDetailsConcat(workouts, records[..k], [records[k]] + records[k + 1..], completed);
    ExercisesWithDetailsCons(workouts, records[k], records[k + 1..], completed);
  }

  /** `getUncompletedExercisesWithDetails`: none without a session; else the resolved exercises of the uncompleted records. */
  function GetUncompletedExercisesWithDetails(workouts: seq<Workout>, session: Option<WorkoutSession>): (r: Option<seq<Exercise>>)
    ensures r.None? <==> session.None?
    ensures r.Some? ==> forall e :: e in r.value ==>
      exists k :: 0 <= k < |session.value.exercises| && !session.value.exercises[k].completed &&
        ResolveExercise(workouts, session.value.exercises[k].exercise.id) == Some(e)
  {
    match session
    case None => None
    case Some(s) =>
      ExercisesWithDetailsSound(workouts, s.exercises, false);
      Some(ExercisesWithDetails(workouts, s.exercises, false))
  }

  /** `getCompletedExercisesWithDetails`: the same join over the completed records. */
  function GetCompletedExercisesWithDetails(workouts: seq<Workout>, session: Option<WorkoutSession>): (r: Option<seq<Exercise>>)
    ensures r.None? <==> session.None?
    ensures r.Some? ==> forall e :: e in r.value ==>
      exists k :: 0 <= k < |session.value.exercises| && session.value.exercises[k].completed &&
        ResolveExercise(workouts, session.value.exercises[k].exercise.id) == Some(e)
  {
    match session
    case None => None
    case Some(s) =>
      ExercisesWithDetailsSound(workouts, s.exercises, true);
      Some(ExercisesWithDetails(workouts, s.exercises, true))
  }

  /** A record is dangling when no catalog exercise has the identifier it refers to. */
  function IsDangling(workouts: seq<Workout>): ExerciseSession -> bool {
    (s: ExerciseSession) => !InCatalog(workouts, s.exercise.id)
  }

  /** The session records that the views silently drop. */
  function DanglingRecords(workouts: seq<Workout>, records: seq<ExerciseSession>): seq<ExerciseSession> {
    Filter(records, IsDangling(workouts))
  }

  /** The completed view, the uncompleted view and the dangling records account for every record once. */
  lemma {:induction false} ExercisesWithDetailsPartition(workouts: seq<Workout>, records: seq<ExerciseSession>)
    ensures |ExercisesWithDetails(workouts, records, true)| + |ExercisesWithDetails(workouts, records, false)|
      + |DanglingRecords(workouts, records)| == |records|
  {
    if records != [] {
      var record, rest := records[0], records[1..];
      assert records == [record] + rest;
      ExercisesWithDetailsCons(workouts, record, rest, true);
      ExercisesWithDetailsCons(workouts, record, rest, false);
      FilterConcat([record], rest, IsDangling(workouts));
      FilterSingleton(record, IsDangling(workouts));
      ExercisesWithDetailsPartition(workouts, rest);
    }
  }

  /**
   * With an active session the two views never hold more than the session
   * has records, and hold exactly as many when no record is dangling.
   */
  lemma SessionViewsPartition(workouts: seq<Workout>, session: Option<WorkoutSession>)
    requires session.Some?
    ensures var records := session.value.exercises;
      && |GetCompletedExercisesWithDetails(workouts, session).value|
         + |GetUncompletedExercisesWithDetails(workouts, session).value|
         + |DanglingRecords(workouts, records)| == |records|
      && (|GetCompletedExercisesWithDetails(workouts, session).value|
          + |GetUncompletedExercisesWithDetails(workouts, session).value| == |records|
          <==> forall k :: 0 <= k < |records| ==> InCatalog(workouts, records[k].exercise.id))
  {
    var records := session.value.exercises;
    ExercisesWithDetailsPartition(workouts, records);
    var d := DanglingRecords(workouts, records);
    if d != [] {
      assert d[0] in d;
    } else {
      forall k | 0 <= k < |records| ensures InCatalog(workouts, records[k].exercise.id) {
        assert records[k] in records;
      }
    }
  }

  // ---------------------------------------------------------------------------
  // Session status
  // ---------------------------------------------------------------------------

  /** `workoutSessionInProgress` */
  predicate WorkoutSessionInProgress(session: Option<WorkoutSession>) {
    session.Some? && session.value.endedAt.None?
  }

  /** `workoutSessionCompleted` */
  predicate WorkoutSessionCompleted(session: Option<WorkoutSession>) {
    session.Some? && session.value.endedAt.Some?
  }

  /** `existExercisesUncompleted`: none without a session, else whether some record is not completed. */
  function ExistExercisesUncompleted(session: Option<WorkoutSession>): (r: Option<bool>)
    ensures r.None? <==> session.None?
    ensures r == Some(false) <==>
      (session.Some? && forall k :: 0 <= k < |session.value.exercises| ==> session.value.exercises[k].completed)
  {
    match session
    case None => None
    case Some(s) => Some(Any(s.exercises, HasCompleted(false)))
  }

  /** A session is in progress or completed, never both, and neither exactly when there is none. */
  lemma SessionStatusExclusive(session: Option<WorkoutSession>)
    ensures !(WorkoutSessionInProgress(session) && WorkoutSessionCompleted(session))
    ensures !WorkoutSessionInProgress(session) && !WorkoutSessionCompleted(session) <==> session.None?
  {
  }

  /** With every record completed, the uncompleted view is empty. */
  lemma AllCompletedMeansEmptyView(workouts: seq<Workout>, records: seq<ExerciseSession>)
    requires !Any(records, HasCompleted(false))
    ensures ExercisesWithDetails(workouts, records, false) == []
  {
    FilterKeepsNone(records, HasCompleted(false));
    assert Map([], Resolver(workouts)) == [];
  }

  /** A non-empty uncompleted view comes from some uncompleted record. */
  lemma NonEmptyViewMeansUncompleted(workouts: seq<Workout>, records: seq<ExerciseSession>)
    requires ExercisesWithDetails(workouts, records, false) != []
    ensures Any(records, HasCompleted(false))
  {
    var view := ExercisesWithDetails(workouts, records, false);
    assert view[0] in view;
    ExercisesWithDetailsSound(workouts, records, false);
    var k :| 0 <= k < |records| && records[k].completed == false &&
      ResolveExercise(workouts, records[k].exercise.id) == Some(view[0]);
    assert HasCompleted(false)(records[k]);
  }

  /** Without dangling records, an uncompleted record makes the uncompleted view non-empty. */
  lemma UncompletedMeansNonEmptyView(workouts: seq<Workout>, records: seq<ExerciseSession>)
    requires forall k :: 0 <= k < |records| ==> InCatalog(workouts, records[k].exercise.id)
    requires Any(records, HasCompleted(false))
    ensures ExercisesWithDetails(workouts, records, false) != []
  {
    var k :| 0 <= k < |records| && HasCompleted(false)(records[k]);
    ExercisesWithDetailsComplete(workouts, records, false, k);
  }

  /**
   * The three values of `existExercisesUncompleted` and how they agree with the
   * uncompleted view: "none" exactly when the view is none; "false" means the
   * view is empty; a non-empty view means "true"; and without dangling records
   * "true" means a non-empty view.
   */
  lemma ExistExercisesUncompletedAgreesWithView(workouts: seq<Workout>, session: Option<WorkoutSession>)
    ensures ExistExercisesUncompleted(session).None? <==> session.None?
    ensures session.Some? ==>
      (ExistExercisesUncompleted(session) == Some(true) <==>
       exists k :: 0 <= k < |session.value.exercises| && !session.value.exercises[k].completed)
    ensures ExistExercisesUncompleted(session) == Some(false) ==>
      GetUncompletedExercisesWithDetails(workouts, session) == Some([])
    ensures (GetUncompletedExercisesWithDetails(workouts, session).Some? &&
             GetUncompletedExercisesWithDetails(workouts, session).value != []) ==>
      ExistExercisesUncompleted(session) == Some(true)
    ensures (session.Some? &&
             forall k :: 0 <= k < |session.value.exercises| ==>
               InCatalog(workouts, session.value.exercises[k].exercise.id)) ==>
      (ExistExercisesUncompleted(session) == Some(true) <==>
       GetUncompletedExercisesWithDetails(workouts, session).value != [])
  {
    if session.Some? {
      var records := session.value.exercises;
      assert GetUncompletedExercisesWithDetails(workouts, session).value == ExercisesWithDetails(workouts, records, false);
      if !Any(records, HasCompleted(false)) {
        AllCompletedMeansEmptyView(workouts, records);
      } else if forall k :: 0 <= k < |records| ==> InCatalog(workouts, records[k].exercise.id) {
        UncompletedMeansNonEmptyView(workouts, records);
      }
      if ExercisesWithDetails(workouts, records, false) != [] {
        NonEmptyViewMeansUncompleted(workouts, records);
      }
    }
  }

  // ---------------------------------------------------------------------------
  // Catalog updates
  // ---------------------------------------------------------------------------

  /** `exercise.id !== exerciseId` */
  function NotId(exerciseId: string): Exercise -> bool {
    (e: Exercise) => e.id != Some(exerciseId)
  }

  /** One workout's exercises without those that have the identifier. */
  function WithoutExercise(exercises: seq<Exercise>, exerciseId: string): (r: seq<Exercise>)
    ensures forall e :: e in r <==> e in exercises && e.id != Some(exerciseId)
    ensures forall e :: multiset(r)[e] == if e.id == Some(exerciseId) then 0 else multiset(exercises)[e]
  {
    FilterMultiset(exercises, NotId(exerciseId));
    Filter(exercises, NotId(exerciseId))
  }

  /** `{ ...workout, exercises: updatedExercises }` */
  function WithExerciseRemoved(exerciseId: string): Workout -> Workout {
    (w: Workout) => w.(exercises := WithoutExercise(w.exercises, exerciseId))
  }

  /** The catalog `deleteExercise` computes: every workout kept, in place, minus the exercises with the identifier. */
  function DeleteExerciseEverywhere(workouts: seq<Workout>, exerciseId: string): (r: seq<Workout>)
    ensures |r| == |workouts|
    ensures forall i :: 0 <= i < |r| ==> r[i] == workouts[i].(exercises := r[i].exercises)
    ensures forall i :: 0 <= i < |r| ==> r[i].exercises == WithoutExercise(workouts[i].exercises, exerciseId)
  {
    Map(workouts, WithExerciseRemoved(exerciseId))
  }

  /** The remaining exercises of a workout keep their relative order; nothing changes when the identifier is absent. */
  lemma WithoutExerciseKeepsOrder(a: seq<Exercise>, b: seq<Exercise>, exerciseId: string)
    ensures WithoutExercise(a + b, exerciseId) == WithoutExercise(a, exerciseId) + WithoutExercise(b, exerciseId)
    ensures (forall k :: 0 <= k < |a| ==> a[k].id != Some(exerciseId)) ==> WithoutExercise(a, exerciseId) == a
  {
    FilterConcat(a, b, NotId(exerciseId));
    if forall k :: 0 <= k < |a| ==> a[k].id != Some(exerciseId) {
      FilterKeepsAll(a, NotId(exerciseId));
    }
  }

  /** Within one workout, other identifiers are exactly as present as before the delete. */
  lemma AnyAfterDelete(exercises: seq<Exercise>, exerciseId: string, x: string)
    requires x != exerciseId
    ensures Any(WithoutExercise(exercises, exerciseId), HasId(x)) <==> Any(exercises, HasId(x))
  {
    AnyAfterFilter(exercises, HasId(x), NotId(exerciseId));
  }

  /** After `deleteExercise(id)` no exercise of the catalog has that identifier. */
  lemma DeletedExerciseIsGone(workouts: seq<Workout>, exerciseId: string)
    ensures !InCatalog(DeleteExerciseEverywhere(workouts, exerciseId), exerciseId)
  {
    var r := DeleteExerciseEverywhere(workouts, exerciseId);
    forall i, k | 0 <= i < |r| && 0 <= k < |r[i].exercises|
      ensures r[i].exercises[k].id != Some(exerciseId)
    {
      assert r[i].exercises[k] in r[i].exercises;
    }
  }

  /** An identifier is in the catalog exactly when some workout holds an exercise with it. */
  lemma InCatalogIsContainsExercise(workouts: seq<Workout>, x: string)
    ensures InCatalog(workouts, x) <==> Any(workouts, ContainsExercise(x))
  {
    if InCatalog(workouts, x) {
      var i, k :| 0 <= i < |workouts| && 0 <= k < |workouts[i].exercises| && workouts[i].exercises[k].id == Some(x);
      assert HasId(x)(workouts[i].exercises[k]);
      assert ContainsExercise(x)(workouts[i]);
    }
    if Any(workouts, ContainsExercise(x)) {
      var i :| 0 <= i < |workouts| && ContainsExercise(x)(workouts[i]);
      var k :| 0 <= k < |workouts[i].exercises| && HasId(x)(workouts[i].exercises[k]);
    }
  }

  /** After `deleteExercise(id)` every other identifier is in the catalog exactly when it was before. */
  lemma DeleteExerciseKeepsOtherIds(workouts: seq<Workout>, exerciseId: string, x: string)
    requires x != exerciseId
    ensures InCatalog(DeleteExerciseEverywhere(workouts, exerciseId), x) <==> InCatalog(workouts, x)
  {
    var r := DeleteExerciseEverywhere(workouts, exerciseId);
    var p := ContainsExercise(x);
    forall i | 0 <= i < |r| ensures p(r[i]) == p(workouts[i]) {
      AnyAfterDelete(workouts[i].exercises, exerciseId, x);
    }
    InCatalogIsContainsExercise(r, x);
    InCatalogIsContainsExercise(workouts, x);
  }

  /** An identifier other than the deleted one, present in the catalog, resolves to the same exercise after the delete. */
  lemma ResolveOtherAfterDelete(workouts: seq<Workout>, exerciseId: string, x: string)
    requires x != exerciseId && InCatalog(workouts, x)
    ensures ResolveExercise(DeleteExerciseEverywhere(workouts, exerciseId), x) == ResolveExercise(workouts, x)
  {
    var r := DeleteExerciseEverywhere(workouts, exerciseId);
    var p := ContainsExercise(x);
    InCatalogIsContainsExercise(workouts, x);
    var i := FirstMatch(workouts, p);
    forall j | 0 <= j < |workouts| ensures p(r[j]) == p(workouts[j]) {
      AnyAfterDelete(workouts[j].exercises, exerciseId, x);
    }
    GetWorkoutByExerciseIdIsFirst(workouts, x, i);
    GetWorkoutByExerciseIdIsFirst(r, x, i);
    FindAfterFilter(workouts[i].exercises, HasId(x), NotId(exerciseId));
  }

  /** After a delete, a record of the deleted exercise is dangling and every other record resolves as before. */
  lemma ResolveAfterDelete(workouts: seq<Workout>, exerciseId: string, x: string)
    ensures ResolveExercise(DeleteExerciseEverywhere(workouts, exerciseId), x) ==
      if x == exerciseId then None else ResolveExercise(workouts, x)
  {
    if x == exerciseId {
      DeletedExerciseIsGone(workouts, exerciseId);
    } else if InCatalog(workouts, x) {
      ResolveOtherAfterDelete(workouts, exerciseId, x);
    } else {
      DeleteExerciseKeepsOtherIds(workouts, exerciseId, x);
    }
  }

  /** `exerciseSession.exercise.id !== exerciseId` */
  function NotFor(exerciseId: string): ExerciseSession -> bool {
    (s: ExerciseSession) => s.exercise.id != exerciseId
  }

  /** The delete step for a single record: it drops out exactly when it is a record of the deleted exercise. */
  lemma ExercisesWithDetailsAfterDeleteOne(
    workouts: seq<Workout>, record: ExerciseSession, exerciseId: string, completed: bool)
    ensures ExercisesWithDetails(DeleteExerciseEverywhere(workouts, exerciseId), [record], completed) ==
      ExercisesWithDetails(workouts, Filter([record], NotFor(exerciseId)), completed)
  {
    var updated := DeleteExerciseEverywhere(workouts, exerciseId);
    assert [record] + [] == [record];
    assert ExercisesWithDetails(updated, [], completed) == [];
    assert ExercisesWithDetails(workouts, [], completed) == [];
    ExercisesWithDetailsCons(updated, record, [], completed);
    FilterSingleton(record, NotFor(exerciseId));
    ResolveAfterDelete(workouts, exerciseId, record.exercise.id);
    if record.exercise.id == exerciseId {
      DeletedExerciseIsGone(workouts, exerciseId);
    } else {
      DeleteExerciseKeepsOtherIds(workouts, exerciseId, record.exercise.id);
      ExercisesWithDetailsCons(workouts, record, [], completed);
    }
  }

  /**
   * Deleting an exercise while a session is live drops exactly the records of
   * that exercise from each view, and changes nothing else in it.
   */
  lemma {:induction false} ExercisesWithDetailsAfterDelete(
    workouts: seq<Workout>, records: seq<ExerciseSession>, exerciseId: string, completed: bool)
    ensures ExercisesWithDetails(DeleteExerciseEverywhere(workouts, exerciseId), records, completed) ==
      ExercisesWithDetails(workouts, Filter(records, NotFor(exerciseId)), completed)
  {
    if records != [] {
      var record, rest := records[0], records[1..];
      var updated := DeleteExerciseEverywhere(workouts, exerciseId);
      var p := NotFor(exerciseId);
      assert records == [record] + rest;
      calc {
        ExercisesWithDetails(updated, records, completed);
      == { ExercisesWithDetailsConcat(updated, [record], rest, completed); }
        ExercisesWithDetails(updated, [record], completed) + ExercisesWithDetails(updated, rest, completed);
      == { ExercisesWithDetailsAfterDeleteOne(workouts, record, exerciseId, completed);
           ExercisesWithDetailsAfterDelete(workouts, rest, exerciseId, completed); }
        ExercisesWithDetails(workouts, Filter([record], p), completed) + ExercisesWithDetails(workouts, Filter(rest, p), completed);
      == { ExercisesWithDetailsConcat(workouts, Filter([record], p), Filter(rest, p), completed); }
        ExercisesWithDetails(workouts, Filter([record], p) + Filter(rest, p), completed);
      == { FilterConcat([record], rest, p); }
        ExercisesWithDetails(workouts, Filter(records, p), completed);
      }
    }
  }

  // Workout W1 holds [E1, E2]; the session has a completed record for E1 and
  // an uncompleted one for E2.
  const E1 := Exercise(Some("e1"), "E1", "3", "10", "20", "60", "", "")
  const E2 := Exercise(Some("e2"), "E2", "3", "12", "15", "60", "", "")
  const W1 := Workout("w1", "W1", User("u", "U", ""), PRIVATE, [E1, E2], [])
  const R1 := ExerciseSession("s1", "3", "10", "20", "60", true, ExerciseRef("e1", "E1"))
  const R2 := ExerciseSession("s2", "3", "12", "15", "60", false, ExerciseRef("e2", "E2"))

  /** E1 and E2 resolve to themselves in the catalog [W1]. */
  lemma ScenarioResolves()
    ensures ResolveExercise([W1], "e1") == Some(E1)
    ensures ResolveExercise([W1], "e2") == Some(E2)
  {
    ResolveExerciseIsFirstMatch([W1], "e1", 0, 0);
    ResolveExerciseIsFirstMatch([W1], "e2", 0, 1);
  }

  /** The completed view is [E1]. */
  lemma SessionScenarioCompleted()
    ensures ExercisesWithDetails([W1], [R1, R2], true) == [E1]
  {
    ScenarioResolves();
    assert [R1, R2] == [R1] + [R2];
    assert [R2] == [R2] + [];
    assert ExercisesWithDetails([W1], [], true) == [];
    ExercisesWithDetailsCons([W1], R2, [], true);
    ExercisesWithDetailsCons([W1], R1, [R2], true);
  }

  /** The uncompleted view is [E2]. */
  lemma SessionScenarioUncompleted()
    ensures ExercisesWithDetails([W1], [R1, R2], false) == [E2]
  {
    ScenarioResolves();
    assert [R1, R2] == [R1] + [R2];
    assert [R2] == [R2] + [];
    assert ExercisesWithDetails([W1], [], false) == [];
    ExercisesWithDetailsCons([W1], R2, [], false);
    ExercisesWithDetailsCons([W1], R1, [R2], false);
  }

  /** Once E2 is deleted from the catalog, the uncompleted view is empty rather than an error. */
  lemma SessionScenarioAfterDelete()
    ensures ExercisesWithDetails(DeleteExerciseEverywhere([W1], "e2"), [R1, R2], false) == []
  {
    var updated := DeleteExerciseEverywhere([W1], "e2");
    DeletedExerciseIsGone([W1], "e2");
    assert [R1, R2] == [R1] + [R2];
    assert [R2] == [R2] + [];
    assert ExercisesWithDetails(updated, [], false) == [];
    ExercisesWithDetailsCons(updated, R1, [R2], false);
    ExercisesWithDetailsCons(updated, R2, [], false);
  }

  /** `isLastExerciseInWorkout` */
  predicate IsLastExerciseInWorkout(workout: Option<Workout>, exerciseId: string) {
    workout.Some? && |workout.value.exercises| == 1 && workout.value.exercises[0].id == Some(exerciseId)
  }

  /**
   * The predicate that guards a destructive delete: false for an absent
   * workout; for a present one, true exactly when it has one exercise and
   * deleting the identifier would leave it with none.
   */
  lemma IsLastExerciseMeansDeleteEmptiesWorkout(workout: Option<Workout>, exerciseId: string)
    ensures workout.None? ==> !IsLastExerciseInWorkout(workout, exerciseId)
    ensures workout.Some? ==>
      (IsLastExerciseInWorkout(workout, exerciseId) <==>
       |workout.value.exercises| == 1 && WithoutExercise(workout.value.exercises, exerciseId) == [])
  {
    if workout.Some? && |workout.value.exercises| == 1 {
      var exercises := workout.value.exercises;
      assert exercises == [exercises[0]];
      FilterSingleton(exercises[0], NotId(exerciseId));
    }
  }

  /** `workout.id !== workoutId` */
  function NotWorkout(workoutId: string): Workout -> bool {
    (w: Workout) => w.id != workoutId
  }

  /** The catalog `deleteWorkout` computes: the workouts whose identifier differs. */
  function WithoutWorkout(workouts: seq<Workout>, workoutId: string): (r: seq<Workout>)
    ensures forall w :: w in r <==> w in workouts && w.id != workoutId
    ensures forall w :: multiset(r)[w] == if w.id == workoutId then 0 else multiset(workouts)[w]
  {
    FilterMultiset(workouts, NotWorkout(workoutId));
    Filter(workouts, NotWorkout(workoutId))
  }

  /** The remaining workouts keep their order, and deleting an absent identifier changes nothing. */
  lemma WithoutWorkoutKeepsOrder(a: seq<Workout>, b: seq<Workout>, workoutId: string)
    ensures WithoutWorkout(a + b, workoutId) == WithoutWorkout(a, workoutId) + WithoutWorkout(b, workoutId)
    ensures (forall k :: 0 <= k < |a| ==> a[k].id != workoutId) ==> WithoutWorkout(a, workoutId) == a
  {
    FilterConcat(a, b, NotWorkout(workoutId));
    if forall k :: 0 <= k < |a| ==> a[k].id != workoutId {
      FilterKeepsAll(a, NotWorkout(workoutId));
    }
  }

  // ---------------------------------------------------------------------------
  // Selection after deleteExercise
  // ---------------------------------------------------------------------------

  /**
   * What `setSelectedExercise` receives after a delete: an exercise or
   * `undefined`, or a TypeError when the fallback reads `exercises` of the
   * missing first workout of an empty catalog.
   */
  datatype Selection = Select(exercise: Option<Exercise>) | Throws

  /**
   * `selectedWorkout?.exercises[0] ?? updatedWorkouts[0].exercises[0]` as
   * written: `selectedWorkout` is the value from before the delete.
   */
  function SelectionAfterDeleteAsWritten(selectedWorkout: Option<Workout>, workouts: seq<Workout>, exerciseId: string): (r: Selection)
    ensures r.Throws? <==> (workouts == [] && (selectedWorkout.None? || selectedWorkout.value.exercises == []))
    ensures selectedWorkout.Some? && selectedWorkout.value.exercises != [] ==>
      r == Select(Some(selectedWorkout.value.exercises[0]))
    ensures !(selectedWorkout.Some? && selectedWorkout.value.exercises != []) && workouts != [] ==>
      r == Select(Find(workouts[0].exercises, NotId(exerciseId)))
    ensures r.Select? && r.exercise.Some? ==>
      (selectedWorkout.Some? && r.exercise.value in selectedWorkout.value.exercises) ||
      (workouts != [] && r.exercise.value in workouts[0].exercises && r.exercise.value.id != Some(exerciseId))
  {
    var updated := DeleteExerciseEverywhere(workouts, exerciseId);
    FirstSurvivor(if workouts != [] then workouts[0].exercises else [], exerciseId);
    if selectedWorkout.Some? && selectedWorkout.value.exercises != [] then
      Select(Some(selectedWorkout.value.exercises[0]))
    else if updated == [] then Throws
    else if updated[0].exercises == [] then Select(None)
    else Select(Some(updated[0].exercises[0]))
  }

  /** As written, deleting the first exercise of the selected workout selects the exercise just deleted. */
  lemma SelectionAsWrittenSelectsDeleted(selectedWorkout: Option<Workout>, workouts: seq<Workout>, exerciseId: string)
    requires selectedWorkout.Some? && selectedWorkout.value.exercises != []
    requires selectedWorkout.value.exercises[0].id == Some(exerciseId)
    ensures SelectionAfterDeleteAsWritten(selectedWorkout, workouts, exerciseId).Select?
    ensures SelectionAfterDeleteAsWritten(selectedWorkout, workouts, exerciseId).exercise.Some?
    ensures SelectionAfterDeleteAsWritten(selectedWorkout, workouts, exerciseId).exercise.value.id == Some(exerciseId)
  {
  }

  /**
   * The first exercise of a workout that survives the delete is the one `find`
   * returns, and it is the workout's first exercise when that one survives.
   */
  lemma FirstSurvivor(exercises: seq<Exercise>, exerciseId: string)
    ensures Find(exercises, NotId(exerciseId)) ==
      if WithoutExercise(exercises, exerciseId) == [] then None else Some(WithoutExercise(exercises, exerciseId)[0])
    ensures exercises != [] && exercises[0].id != Some(exerciseId) ==>
      WithoutExercise(exercises, exerciseId) != [] && WithoutExercise(exercises, exerciseId)[0] == exercises[0]
  {
    FindIsFirstOfFilter(exercises, NotId(exerciseId));
    if exercises != [] && exercises[0].id != Some(exerciseId) {
      assert Filter(exercises, NotId(exerciseId)) == [exercises[0]] + Filter(exercises[1..], NotId(exerciseId));
    }
  }

  /** `workout.id === workoutId` */
  function WorkoutHasId(workoutId: string): Workout -> bool {
    (w: Workout) => w.id == workoutId
  }

  /**
   * The selected workout as it now stands in the catalog: the first catalog
   * workout with its identifier, none when there is no selection or no
   * workout has that identifier any more.
   */
  function CurrentWorkout(selectedWorkout: Option<Workout>, workouts: seq<Workout>): (r: Option<Workout>)
    ensures r.Some? ==> selectedWorkout.Some? && r.value in workouts && r.value.id == selectedWorkout.value.id
    ensures r.None? <==>
      (selectedWorkout.None? || forall k :: 0 <= k < |workouts| ==> workouts[k].id != selectedWorkout.value.id)
  {
    match selectedWorkout
    case None => None
    case Some(w) => Find(workouts, WorkoutHasId(w.id))
  }

  /** The exercise is listed in one of the catalog's workouts. */
  ghost predicate InSomeWorkout(e: Exercise, workouts: seq<Workout>) {
    exists i :: 0 <= i < |workouts| && e in workouts[i].exercises
  }

  /** What survives of a catalog workout's exercises is in the updated catalog. */
  lemma SurvivorsInCatalog(current: Option<Workout>, workouts: seq<Workout>, exerciseId: string)
    requires current.Some? ==> current.value in workouts
    ensures current.Some? ==> forall e :: e in WithoutExercise(current.value.exercises, exerciseId) ==>
      InSomeWorkout(e, DeleteExerciseEverywhere(workouts, exerciseId))
  {
    if current.Some? {
      var i :| 0 <= i < |workouts| && workouts[i] == current.value;
      assert DeleteExerciseEverywhere(workouts, exerciseId)[i].exercises == WithoutExercise(current.value.exercises, exerciseId);
    }
  }

  /**
   * The selection with the selected workout taken as it now stands in the
   * catalog and the deleted exercises left out: its first surviving exercise,
   * and otherwise the fallback the code takes without a selected workout. What
   * it selects is always in the updated catalog; it agrees with the code
   * whenever the selection is current and its first exercise is not the
   * deleted one.
   */
  function SelectionAfterDelete(selectedWorkout: Option<Workout>, workouts: seq<Workout>, exerciseId: string): (r: Selection)
    ensures r.Select? && r.exercise.Some? ==> r.exercise.value.id != Some(exerciseId)
    ensures r.Throws? <==> workouts == []
  {
    var updated := DeleteExerciseEverywhere(workouts, exerciseId);
    var current := CurrentWorkout(selectedWorkout, workouts);
    var exercises := if current.Some? then current.value.exercises else [];
    var remaining := WithoutExercise(exercises, exerciseId);
    FirstSurvivor(exercises, exerciseId);
    if remaining != [] then
      assert remaining[0] in remaining;
      Select(Some(remaining[0]))
    else if updated == [] then Throws
    else if updated[0].exercises == [] then Select(None)
    else
      assert updated[0].exercises[0] in updated[0].exercises;
      Select(Some(updated[0].exercises[0]))
  }

  /** When the selected workout is still in the catalog and keeps an exercise, the first it keeps is selected. */
  lemma SelectionAfterDeletePrefersCurrentWorkout(selectedWorkout: Option<Workout>, workouts: seq<Workout>, exerciseId: string)
    ensures CurrentWorkout(selectedWorkout, workouts).Some? &&
            Find(CurrentWorkout(selectedWorkout, workouts).value.exercises, NotId(exerciseId)).Some? ==>
      SelectionAfterDelete(selectedWorkout, workouts, exerciseId) ==
      Select(Find(CurrentWorkout(selectedWorkout, workouts).value.exercises, NotId(exerciseId)))
  {
    var current := CurrentWorkout(selectedWorkout, workouts);
    FirstSurvivor(if current.Some? then current.value.exercises else [], exerciseId);
  }

  /** Otherwise the selection is the code's fallback without a selected workout. */
  lemma SelectionAfterDeleteFallsBack(selectedWorkout: Option<Workout>, workouts: seq<Workout>, exerciseId: string)
    ensures (CurrentWorkout(selectedWorkout, workouts).None? ||
             Find(CurrentWorkout(selectedWorkout, workouts).value.exercises, NotId(exerciseId)).None?) ==>
      SelectionAfterDelete(selectedWorkout, workouts, exerciseId) == SelectionAfterDeleteAsWritten(None, workouts, exerciseId)
  {
    var current := CurrentWorkout(selectedWorkout, workouts);
    FirstSurvivor(if current.Some? then current.value.exercises else [], exerciseId);
  }

  /**
   * When the selection is still as the catalog has it and its first exercise
   * is not the deleted one, the correction selects what the code selects.
   */
  lemma SelectionAfterDeleteAgreesWithCode(selectedWorkout: Option<Workout>, workouts: seq<Workout>, exerciseId: string)
    ensures CurrentWorkout(selectedWorkout, workouts) == selectedWorkout &&
            !(selectedWorkout.Some? && selectedWorkout.value.exercises != [] &&
              selectedWorkout.value.exercises[0].id == Some(exerciseId)) ==>
      SelectionAfterDelete(selectedWorkout, workouts, exerciseId) == SelectionAfterDeleteAsWritten(selectedWorkout, workouts, exerciseId)
  {
    var current := CurrentWorkout(selectedWorkout, workouts);
    FirstSurvivor(if current.Some? then current.value.exercises else [], exerciseId);
  }

  /** The corrected selection picks an exercise that is still in the catalog after the delete. */
  lemma SelectionAfterDeleteInCatalog(selectedWorkout: Option<Workout>, workouts: seq<Workout>, exerciseId: string)
    ensures var r := SelectionAfterDelete(selectedWorkout, workouts, exerciseId);
      r.Select? && r.exercise.Some? ==> InSomeWorkout(r.exercise.value, DeleteExerciseEverywhere(workouts, exerciseId))
  {
    var updated := DeleteExerciseEverywhere(workouts, exerciseId);
    var current := CurrentWorkout(selectedWorkout, workouts);
    var exercises := if current.Some? then current.value.exercises else [];
    var remaining := WithoutExercise(exercises, exerciseId);
    SurvivorsInCatalog(current, workouts, exerciseId);
    if remaining != [] {
      assert remaining[0] in remaining;
    } else if updated != [] && updated[0].exercises != [] {
      assert updated[0].exercises[0] in updated[0].exercises;
    }
  }

  /** With W1 = [E1, E2] selected, deleting E1 selects E1 as written, and E2 once corrected. */
  lemma StaleSelectionCounterexample()
    ensures SelectionAfterDeleteAsWritten(Some(W1), [W1], "e1") == Select(Some(E1))
    ensures SelectionAfterDelete(Some(W1), [W1], "e1") == Select(Some(E2))
  {
    assert [E1, E2] == [E1] + [E2];
    FilterConcat([E1], [E2], NotId("e1"));
    FilterSingleton(E1, NotId("e1"));
    FilterSingleton(E2, NotId("e1"));
    assert WithoutExercise(W1.exercises, "e1") == [E2];
    assert CurrentWorkout(Some(W1), [W1]) == Some(W1);
  }

  /**
   * On an empty catalog with W1 still selected, the code selects W1's old
   * first exercise while the correction throws.
   */
  lemma EmptyCatalogStaleSelection()
    ensures SelectionAfterDeleteAsWritten(Some(W1), [], "e9") == Select(Some(E1))
    ensures SelectionAfterDelete(Some(W1), [], "e9") == Throws
  {
  }

  // Workout W2 holds [E1, E2, E3]; W2After is W2 once E1 is deleted.
  const E3 := Exercise(Some("e3"), "E3", "4", "8", "30", "90", "", "")
  const W2 := Workout("w2", "W2", User("u", "U", ""), PRIVATE, [E1, E2, E3], [])
  const W2After := W2.(exercises := [E2, E3])

  /** Deleting E1 from W2's exercises leaves [E2, E3]. */
  lemma DeleteFirstOfThree()
    ensures WithoutExercise([E1, E2, E3], "e1") == [E2, E3]
  {
    var p := NotId("e1");
    assert "e2"[1] != "e1"[1] && "e3"[1] != "e1"[1];
    assert !p(E1) && p(E2) && p(E3);
    assert [E1, E2, E3][1..] == [E2, E3];
    assert [E2, E3][1..] == [E3];
    assert [E3][1..] == [];
    assert Filter([E3], p) == [E3];
    assert Filter([E2, E3], p) == [E2, E3];
  }

  /** E1 is deleted from W2 and nothing else changes. */
  lemma RepeatedDeleteFirstStep()
    ensures DeleteExerciseEverywhere([W2], "e1") == [W2After]
  {
    DeleteFirstOfThree();
    var updated := DeleteExerciseEverywhere([W2], "e1");
    assert updated[0] == W2After;
  }

  /** Deleting E2 next leaves W2 with [E3]. */
  lemma RepeatedDeleteSecondStep()
    ensures WithoutExercise([E2, E3], "e2") == [E3]
    ensures DeleteExerciseEverywhere([W2After], "e2") == [W2.(exercises := [E3])]
  {
    var p := NotId("e2");
    assert "e3"[1] != "e2"[1];
    assert !p(E2) && p(E3);
    assert [E2, E3][1..] == [E3];
    assert [E3][1..] == [];
    assert Filter([E3], p) == [E3];
    var updated := DeleteExerciseEverywhere([W2After], "e2");
    assert updated[0] == W2.(exercises := [E3]);
  }

  /**
   * With W2 selected, delete E1 and then E2: the code, still holding W2 as it
   * was, selects E1, which is no longer in the catalog; the correction selects E3.
   */
  lemma RepeatedDeleteScenario()
    ensures SelectionAfterDeleteAsWritten(Some(W2), [W2After], "e2") == Select(Some(E1))
    ensures !InCatalog(DeleteExerciseEverywhere([W2After], "e2"), "e1")
    ensures SelectionAfterDelete(Some(W2), [W2After], "e2") == Select(Some(E3))
  {
    RepeatedDeleteSecondStep();
    assert "e3"[1] != "e1"[1];
    assert CurrentWorkout(Some(W2), [W2After]) == Some(W2After);
    SelectionAfterDeletePrefersCurrentWorkout(Some(W2), [W2After], "e2");
    FirstSurvivor(W2After.exercises, "e2");
  }

  // ---------------------------------------------------------------------------
  // The provider's state
  // ---------------------------------------------------------------------------

  /** The mutable state of the WorkoutProvider and the operations that replace it. */
  class WorkoutProvider {
    var workouts: seq<Workout>
    var selectedWorkout: Option<Workout>
    var selectedExercise: Option<Exercise>
    var workoutSession: Option<WorkoutSession>

    constructor ()
      ensures workouts == [] && selectedWorkout == None && selectedExercise == None && workoutSession == None
    {
      workouts, selectedWorkout, selectedExercise, workoutSession := [], None, None, None;
    }

    /** `isWorkoutsEmpty` */
    function IsWorkoutsEmpty(): (empty: bool)
      reads this
      ensures empty <==> |workouts| == 0
    {
      workouts == []
    }

    /** `setWorkoutSession`: replaces the session wholesale, with no guard against overwriting one in progress. */
    method SetWorkoutSession(session: Option<WorkoutSession>)
      modifies this
      ensures workoutSession == session
      ensures workouts == old(workouts) && selectedWorkout == old(selectedWorkout)
      ensures selectedExercise == old(selectedExercise)
    {
      workoutSession := session;
    }

    /** `setSelectedWorkout` */
    method SetSelectedWorkout(workout: Option<Workout>)
      modifies this
      ensures selectedWorkout == workout
      ensures workouts == old(workouts) && selectedExercise == old(selectedExercise)
      ensures workoutSession == old(workoutSession)
    {
      selectedWorkout := workout;
    }

    /** `setSelectedExercise` */
    method SetSelectedExercise(exercise: Option<Exercise>)
      modifies this
      ensures selectedExercise == exercise
      ensures workouts == old(workouts) && selectedWorkout == old(selectedWorkout)
      ensures workoutSession == old(workoutSession)
    {
      selectedExercise := exercise;
    }

    /** `appendWorkout`: one more workout, at the end, with no check for a duplicate identifier. */
    method AppendWorkout(workout: Workout)
      modifies this
      ensures workouts == old(workouts) + [workout]
      ensures selectedWorkout == old(selectedWorkout) && selectedExercise == old(selectedExercise)
      ensures workoutSession == old(workoutSession)
    {
      workouts := workouts + [workout];
    }

    /** `deleteWorkout`: drops every workout with the identifier and always clears the selected workout. */
    method DeleteWorkout(workoutId: string)
      modifies this
      ensures workouts == WithoutWorkout(old(workouts), workoutId)
      ensures selectedWorkout == None
      ensures selectedExercise == old(selectedExercise) && workoutSession == old(workoutSession)
    {
      workouts := WithoutWorkout(workouts, workoutId);
      selectedWorkout := None;
    }

    /**
     * `deleteExercise`: replaces the catalog, then sets the selected exercise
     * unconditionally. `ok` is false when the selection step throws (only
     * possible on an empty catalog); the catalog has been replaced by then and
     * the selection is left as it was.
     */
    method DeleteExercise(exerciseId: string) returns (ok: bool)
      modifies this
      ensures workouts == DeleteExerciseEverywhere(old(workouts), exerciseId)
      ensures selectedWorkout == old(selectedWorkout) && workoutSession == old(workoutSession)
      ensures ok <==> old(workouts) != []
      ensures ok == SelectionAfterDelete(old(selectedWorkout), old(workouts), exerciseId).Select?
      ensures ok ==> selectedExercise == SelectionAfterDelete(old(selectedWorkout), old(workouts), exerciseId).exercise
      ensures !ok ==> selectedExercise == old(selectedExercise) && old(workouts) == []
    {
      var before := workouts;
      var selection := SelectionAfterDelete(selectedWorkout, before, exerciseId);
      workouts := DeleteExerciseEverywhere(before, exerciseId);
      ok := selection.Select?;
      if ok {
        selectedExercise := selection.exercise;
      }
    }
  }
}

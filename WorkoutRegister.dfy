/**
 * The exercise list of the workout registration form
 * (src/pages/WorkoutRegister/index.tsx): its blank initial entry and the
 * edits that add, remove and change entries.
 */
module WorkoutRegister {

  /** One exercise as the form holds it; every field is text. */
  datatype Exercise = Exercise(
    name: string,
    series: string,
    repetitions: string,
    weight: string,
    restTime: string,
    videoUrl: string,
    instructions: string)

  /** `keyof Exercise` */
  datatype Field = Name | Series | Repetitions | Weight | RestTime | VideoUrl | Instructions

  /** `initialExercise`: every field empty. */
  const InitialExercise := Exercise("", "", "", "", "", "", "")

  /** `exercise[field]` */
  function Get(e: Exercise, f: Field): string {
    match f
    case Name => e.name
    case Series => e.series
    case Repetitions => e.repetitions
    case Weight => e.weight
    case RestTime => e.restTime
    case VideoUrl => e.videoUrl
    case Instructions => e.instructions
  }

  ghost predicate IsBlank(e: Exercise) {
    forall f :: Get(e, f) == ""
  }

  /** `{ ...exercise, [field]: value }`: that field replaced, every other field kept. */
  function WithField(e: Exercise, f: Field, value: string): (r: Exercise)
    ensures Get(r, f) == value
    ensures forall g :: g != f ==> Get(r, g) == Get(e, g)
  {
    match f
    case Name => e.(name := value)
    case Series => e.(series := value)
    case Repetitions => e.(repetitions := value)
    case Weight => e.(weight := value)
    case RestTime => e.(restTime := value)
    case VideoUrl => e.(videoUrl := value)
    case Instructions => e.(instructions := value)
  }

  /** An exercise is determined by its fields. */
  lemma FieldsDetermineExercise(a: Exercise, b: Exercise)
    requires forall f :: Get(a, f) == Get(b, f)
    ensures a == b
  {
    assert Get(a, Name) == Get(b, Name) && Get(a, Series) == Get(b, Series);
    assert Get(a, Repetitions) == Get(b, Repetitions) && Get(a, Weight) == Get(b, Weight);
    assert Get(a, RestTime) == Get(b, RestTime) && Get(a, VideoUrl) == Get(b, VideoUrl);
    assert Get(a, Instructions) == Get(b, Instructions);
  }

  /** The blank exercise is the only blank one. */
  lemma BlankIsInitial(e: Exercise)
    ensures IsBlank(e) <==> e == InitialExercise
  {
    if IsBlank(e) {
      assert forall f :: Get(InitialExercise, f) == "";
      FieldsDetermineExercise(e, InitialExercise);
    } else {
      var f :| Get(e, f) != "";
    }
  }

  /** The list after `addExercise`. */
  function Appended(exercises: seq<Exercise>): (r: seq<Exercise>)
    ensures |r| == |exercises| + 1
    ensures r[..|exercises|] == exercises
    ensures IsBlank(r[|exercises|])
  {
    exercises + [InitialExercise]
  }

  /** `exercises.filter((_, i) => i !== index)`: element `index` dropped, if there is one. */
  function RemovedAt(exercises: seq<Exercise>, index: int): (r: seq<Exercise>)
    ensures 0 <= index < |exercises| ==> r == exercises[..index] + exercises[index + 1..]
    ensures !(0 <= index < |exercises|) ==> r == exercises
    decreases |exercises|
  {
    if exercises == [] then []
    else
      var rest := RemovedAt(exercises[1..], index - 1);
      assert exercises == [exercises[0]] + exercises[1..];
      (if index == 0 then [] else [exercises[0]]) + rest
  }

  /** `exercises.map((exercise, i) => i === index ? { ...exercise, [field]: value } : exercise)` */
  function UpdatedAt(exercises: seq<Exercise>, index: int, f: Field, value: string): (r: seq<Exercise>)
    ensures |r| == |exercises|
    ensures forall k :: 0 <= k < |r| && k != index ==> r[k] == exercises[k]
    ensures 0 <= index < |r| ==> r[index] == WithField(exercises[index], f, value)
    ensures !(0 <= index < |exercises|) ==> r == exercises
    decreases |exercises|
  {
    if exercises == [] then []
    else
      var rest := UpdatedAt(exercises[1..], index - 1, f, value);
      [if index == 0 then WithField(exercises[0], f, value) else exercises[0]] + rest
  }

  /** Removing the entry just added gives back the list before it. */
  lemma RemoveUndoesAdd(exercises: seq<Exercise>)
    ensures RemovedAt(Appended(exercises), |exercises|) == exercises
  {
  }

  /** Writing a field's own value back changes nothing. */
  lemma UpdateWithSameValueIsIdentity(exercises: seq<Exercise>, index: int, f: Field)
    requires 0 <= index < |exercises|
    ensures UpdatedAt(exercises, index, f, Get(exercises[index], f)) == exercises
  {
    var e := exercises[index];
    FieldsDetermineExercise(WithField(e, f, Get(e, f)), e);
  }

  /** The later of two writes to the same field of the same entry wins. */
  lemma UpdateTwiceLastWins(exercises: seq<Exercise>, index: int, f: Field, v: string, w: string)
    ensures UpdatedAt(UpdatedAt(exercises, index, f, v), index, f, w) == UpdatedAt(exercises, index, f, w)
  {
    if 0 <= index < |exercises| {
      var e := exercises[index];
      FieldsDetermineExercise(WithField(WithField(e, f, v), f, w), WithField(e, f, w));
    }
  }

  /**
   * The form's state. Entries are removed only through the remove control,
   * which is shown only while there is more than one, so the list is never empty.
   */
  class RegisterForm {
    var workoutName: string
    var exercises: seq<Exercise>

    ghost predicate Valid()
      reads this
    {
      |exercises| >= 1
    }

    constructor ()
      ensures Valid()
      ensures workoutName == "" && exercises == [InitialExercise]
    {
      workoutName, exercises := "", [InitialExercise];
    }

    /** The name input's `onChange`. */
    method SetWorkoutName(name: string)
      requires Valid()
      modifies this
      ensures Valid()
      ensures workoutName == name && exercises == old(exercises)
    {
      workoutName := name;
    }

    /** `addExercise` */
    method AddExercise()
      requires Valid()
      modifies this
      ensures Valid()
      ensures exercises == Appended(old(exercises)) && workoutName == old(workoutName)
    {
      exercises := exercises + [InitialExercise];
    }

    /** `removeExercise`, reachable only while there is more than one entry. */
    method RemoveExercise(index: int)
      requires Valid() && |exercises| > 1
      modifies this
      ensures Valid()
      ensures exercises == RemovedAt(old(exercises), index) && workoutName == old(workoutName)
    {
      exercises := RemovedAt(exercises, index);
    }

    /** `updateExercise` with the text a field input's `onChange` passes. */
    method UpdateExercise(index: int, f: Field, value: string)
      requires Valid()
      modifies this
      ensures Valid()
      ensures exercises == UpdatedAt(old(exercises), index, f, value) && workoutName == old(workoutName)
    {
      exercises := UpdatedAt(exercises, index, f, value);
    }

    /** `clearFields`: back to an empty name and one blank entry. */
    method ClearFields()
      requires Valid()
      modifies this
      ensures Valid()
      ensures workoutName == "" && exercises == [InitialExercise]
    {
      workoutName, exercises := "", [InitialExercise];
    }
  }
}

/**
 * The records the workout state layer works on: the catalog (workouts and
 * their exercises) and the active session (exercise-completion records that
 * point at catalog exercises by identifier only).
 */
module WorkoutTypes {
  import opened Wrappers

  datatype Visibility = PRIVATE | PUBLIC

  datatype User = User(id: string, name: string, avatar: string)

  /** A like on a workout: the user who gave it. */
  datatype WorkoutLike = WorkoutLike(userId: string)

  /** A catalog exercise; `id` is absent until the exercise has been persisted. */
  datatype Exercise = Exercise(
    id: Option<string>,
    name: string,
    series: string,
    repetitions: string,
    weight: string,
    restTime: string,
    videoUrl: string,
    instructions: string)

  datatype Workout = Workout(
    id: string,
    name: string,
    user: User,
    visibility: Visibility,
    exercises: seq<Exercise>,
    likes: seq<WorkoutLike>)

  /** The weak link from a session record to the catalog exercise it was made for. */
  datatype ExerciseRef = ExerciseRef(id: string, name: string)

  /** What was actually performed for one exercise of a session. */
  datatype ExerciseSession = ExerciseSession(
    id: string,
    series: string,
    repetitions: string,
    weight: string,
    restTime: string,
    completed: bool,
    exercise: ExerciseRef)

  /** A timed run through a workout; `endedAt` is absent while it is in progress. */
  datatype WorkoutSession = WorkoutSession(
    id: string,
    startedAt: string,
    endedAt: Option<string>,
    exercises: seq<ExerciseSession>)
}

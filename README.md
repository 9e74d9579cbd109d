# Workout tracker state layer — a Dafny model

This project models the client-side state logic of a workout-tracking web app. The ownership of state follows the app:

- **WorkoutContext** (`WorkoutContext.dfy`) is the shared store. It holds the catalog of workouts with their exercises, the selected workout and exercise, and the active workout session. Its read-only views join session records to catalog exercises, decide whether a session is in progress or completed, and find the workout that holds an exercise. Its updates delete an exercise or a workout, append a workout, and replace the selection and the session.
- **Community** (`Community.dfy`) is the public feed. It shows whether the current user likes a workout, updates a workout's likes locally when the user toggles, and keeps the set of workouts whose like request is in flight.
- **WorkoutList** (`WorkoutList.dfy`) holds which workouts are expanded on the list page.
- **WorkoutRegister** (`WorkoutRegister.dfy`) is the registration form's editable exercise list.

`WorkoutTypes.dfy` holds the store's records as datatypes. An exercise's optional `id` is an `Option<string>`, and a `null` end time is `None`. `Seqs.dfy` holds the JavaScript array operations the code relies on, with their properties proved once:

- `filter`, written `Filter`;
- `map`, written `Map`;
- `find`, written `Find`;
- `some`, written `Any`;
- the `filter(x => x !== undefined)` that ends each session view, written `Somes`.

`Wrappers.dfy` holds `Option`.

The pieces of state each component updates in place are classes:

- `WorkoutProvider` — the store;
- `CommunityPage`;
- `WorkoutListPage`;
- `RegisterForm`.

Their fields hold the React state (`seq`, `set`, `Option`). Every method states its whole new state in terms of a function on the old one. The properties the app relies on are lemmas about those functions:

- the session views are sound and complete, and they account for every record;
- `deleteExercise` removes exactly the matching exercises, keeps order and leaves the other workout fields as they were (it also replaces the selected exercise);
- liking and then unliking a workout the user had not liked restores its likes, and opening and then closing a closed workout restores the list of open workouts (from a liked or open start the toggled entry moves to the end instead);
- the form's list is never empty.

The model follows the code where it departs from the app's documented intent:

- `deleteWorkout` clears the selected workout on every call, not only when it removed that workout.
- `deleteExercise` always replaces the selected exercise, not only when the deleted exercise was the selected one.
- On an empty catalog the fallback `updatedWorkouts[0].exercises` throws a TypeError; the documented intent is a silent no-op. The model keeps the throw as `Selection.Throws`, and `DeleteExercise` returns `ok == false` after it has already replaced the catalog.
- `existExercisesUncompleted` returns `boolean | undefined`, modelled as `Option<bool>`.

## Model

| member | source | states |
|---|---|---|
| Seqs.Filter | src/context/WorkoutContext.tsx:211-213 | `Array.filter`: the result is no longer than the input and holds exactly the elements that satisfy the predicate |
| Seqs.FilterMultiset | src/context/WorkoutContext.tsx:211-213 | each element that passes the filter is kept as many times as it occurs, and every other element is dropped |
| Seqs.FilterConcat | src/context/WorkoutContext.tsx:211-213 | filtering distributes over concatenation, so the kept elements stay in their original order |
| Seqs.FilterKeepsAll | src/pages/WorkoutList/index.tsx:16 | a filter that every element passes returns the sequence unchanged |
| Seqs.FilterKeepsNone | src/pages/Community/index.tsx:118 | a filter that no element passes returns the empty sequence |
| Seqs.FilterIdempotent | src/pages/WorkoutList/index.tsx:16 | filtering twice by the same predicate is filtering once |
| Seqs.Map | src/context/WorkoutContext.tsx:210-215 | `Array.map`: same length, and element k of the result is the function applied to element k |
| Seqs.MapConcat | src/context/WorkoutContext.tsx:147-159 | mapping distributes over concatenation |
| Seqs.Any | src/context/WorkoutContext.tsx:195-197 | `Array.some`: some element satisfies the predicate exactly when `Array.find` with the same predicate finds one |
| Seqs.Find | src/context/WorkoutContext.tsx:195-197 | `Array.find`: a found element is in the sequence and satisfies the predicate; nothing is found exactly when no element satisfies it |
| Seqs.FindIsFirstOfFilter | src/context/WorkoutContext.tsx:195-197 | `find` returns the first element `filter` keeps by the same predicate, and nothing when the filter keeps nothing |
| Seqs.FindFirst | src/context/WorkoutContext.tsx:195-197 | `find` returns the first element, in order, that satisfies the predicate |
| Seqs.FirstMatch | src/context/WorkoutContext.tsx:195-197 | when some element satisfies the predicate there is a first index that does |
| Seqs.FindAfterFilter | src/context/WorkoutContext.tsx:154-156 | finding by p after filtering by q, where p implies q, finds what finding by p on the whole sequence finds |
| Seqs.AnyAfterFilter | src/context/WorkoutContext.tsx:211-213 | filtering by a predicate that every p-element passes does not change whether some element satisfies p |
| Seqs.Somes | src/context/WorkoutContext.tsx:160 | `filter(x => x !== undefined)`: no longer than the input, and a value is in the result exactly when it is present in the input |
| Seqs.SomesConcat | src/context/WorkoutContext.tsx:160 | dropping the undefined entries distributes over concatenation |
| WorkoutContext.GetWorkoutByExerciseId | src/context/WorkoutContext.tsx:194-198 | returns a catalog workout that holds an exercise with the identifier; undefined exactly when no exercise of the catalog has it |
| WorkoutContext.GetWorkoutByExerciseIdIsFirst | src/context/WorkoutContext.tsx:194-198 | the workout returned is the first, in catalog order, that holds the exercise |
| WorkoutContext.ResolveExercise | src/context/WorkoutContext.tsx:148-158 | joining a session record to the catalog yields an exercise with the record's identifier, taken from a catalog workout; undefined exactly when no catalog exercise has that identifier |
| WorkoutContext.ResolveExerciseIsFirstMatch | src/context/WorkoutContext.tsx:148-158 | the exercise resolved is the first match inside the first workout that holds one |
| WorkoutContext.ExercisesWithDetails | src/context/WorkoutContext.tsx:144-180 | the join shared by both views (records with the view's completion flag, resolved against the catalog, unresolved ones dropped): never longer than the session, and every exercise listed has an identifier that is in the catalog |
| WorkoutContext.ExercisesWithDetailsSound | src/context/WorkoutContext.tsx:144-180 | every exercise in a view comes from a session record with the view's completion flag that resolves to it |
| WorkoutContext.ExercisesWithDetailsCons | src/context/WorkoutContext.tsx:144-180 | a record contributes its resolved exercise, at its position, when its flag matches and its exercise is in the catalog, and nothing otherwise |
| WorkoutContext.ExercisesWithDetailsConcat | src/context/WorkoutContext.tsx:144-180 | the views follow session order: the view of a concatenation is the concatenation of the views |
| WorkoutContext.ExercisesWithDetailsComplete | src/context/WorkoutContext.tsx:144-180 | every record with the view's flag whose exercise is in the catalog shows up in the view |
| WorkoutContext.GetUncompletedExercisesWithDetails | src/context/WorkoutContext.tsx:144-161 | undefined exactly when there is no session; otherwise every exercise listed resolves from an uncompleted record |
| WorkoutContext.GetCompletedExercisesWithDetails | src/context/WorkoutContext.tsx:163-180 | undefined exactly when there is no session; otherwise every exercise listed resolves from a completed record |
| WorkoutContext.ExercisesWithDetailsPartition | src/context/WorkoutContext.tsx:144-180 | the completed view, the uncompleted view and the dangling records (not in the catalog) together count every record exactly once |
| WorkoutContext.SessionViewsPartition | src/context/WorkoutContext.tsx:144-180 | with a session, the two views plus the dangling records count the records, and the views alone count them exactly when no record dangles |
| WorkoutContext.WorkoutSessionInProgress | src/context/WorkoutContext.tsx:182-184 | a session exists and has no end time; its relation to `WorkoutSessionCompleted` is `SessionStatusExclusive` |
| WorkoutContext.WorkoutSessionCompleted | src/context/WorkoutContext.tsx:186-188 | a session exists and has an end time |
| WorkoutContext.SessionStatusExclusive | src/context/WorkoutContext.tsx:182-188 | a session is never both in progress and completed, and is neither exactly when there is no session |
| WorkoutContext.AllCompletedMeansEmptyView | src/context/WorkoutContext.tsx:144-161 | when every record is completed, the uncompleted view is empty |
| WorkoutContext.NonEmptyViewMeansUncompleted | src/context/WorkoutContext.tsx:144-161 | a non-empty uncompleted view implies that some record is uncompleted |
| WorkoutContext.UncompletedMeansNonEmptyView | src/context/WorkoutContext.tsx:144-161 | when no record is dangling, an uncompleted record makes the uncompleted view non-empty |
| WorkoutContext.ExistExercisesUncompleted | src/context/WorkoutContext.tsx:190-192 | undefined exactly when there is no session, and false exactly when there is a session whose records are all completed |
| WorkoutContext.ExistExercisesUncompletedAgreesWithView | src/context/WorkoutContext.tsx:190-192 | undefined exactly without a session; true exactly when some record is uncompleted; false implies an empty uncompleted view; a non-empty view implies true; with no dangling record, true exactly when the view is non-empty |
| WorkoutContext.WithoutExercise | src/context/WorkoutContext.tsx:211-213 | one workout's exercises minus those with the identifier: membership and multiplicity of every other exercise kept, none with the identifier left |
| WorkoutContext.DeleteExerciseEverywhere | src/context/WorkoutContext.tsx:210-215 | the updated catalog keeps every workout in place with all other fields unchanged, and each workout's exercises lose only those with the identifier |
| WorkoutContext.WithoutExerciseKeepsOrder | src/context/WorkoutContext.tsx:211-213 | the remaining exercises keep their relative order, and a workout without the identifier is unchanged |
| WorkoutContext.AnyAfterDelete | src/context/WorkoutContext.tsx:211-213 | within one workout, every other identifier is present after the delete exactly when it was before |
| WorkoutContext.DeletedExerciseIsGone | src/context/WorkoutContext.tsx:209-216 | after the delete no catalog exercise has the identifier |
| WorkoutContext.InCatalogIsContainsExercise | src/context/WorkoutContext.tsx:194-198 | an identifier is in the catalog exactly when some workout passes the `exercises.some` test for it |
| WorkoutContext.DeleteExerciseKeepsOtherIds | src/context/WorkoutContext.tsx:209-216 | after the delete every other identifier is in the catalog exactly when it was before |
| WorkoutContext.ResolveOtherAfterDelete | src/context/WorkoutContext.tsx:209-216 | an identifier other than the deleted one, present in the catalog, resolves to the same exercise after the delete |
| WorkoutContext.ResolveAfterDelete | src/context/WorkoutContext.tsx:209-216 | after the delete, a record of the deleted exercise no longer resolves and every other record resolves to the same exercise as before |
| WorkoutContext.ExercisesWithDetailsAfterDeleteOne | src/context/WorkoutContext.tsx:144-180 | a single record drops out of a view after the delete exactly when it is a record of the deleted exercise |
| WorkoutContext.ExercisesWithDetailsAfterDelete | src/context/WorkoutContext.tsx:144-180 | deleting an exercise during a session turns each view into the view over the records of other exercises |
| WorkoutContext.ScenarioResolves | src/context/WorkoutContext.tsx:148-158 | in the catalog [W1] with W1 = [E1, E2], the identifiers e1 and e2 resolve to E1 and E2 |
| WorkoutContext.SessionScenarioCompleted | src/context/WorkoutContext.tsx:163-180 | with workout [E1, E2], a completed record for E1 and an uncompleted one for E2, the completed view is [E1] |
| WorkoutContext.SessionScenarioUncompleted | src/context/WorkoutContext.tsx:144-161 | in the same setting the uncompleted view is [E2] |
| WorkoutContext.SessionScenarioAfterDelete | src/context/WorkoutContext.tsx:144-161 | after E2 is deleted from that catalog, the uncompleted view is empty instead of failing |
| WorkoutContext.IsLastExerciseInWorkout | src/context/WorkoutContext.tsx:200-207 | the workout is defined, has exactly one exercise, and that exercise has the identifier; its meaning for a delete is `IsLastExerciseMeansDeleteEmptiesWorkout` |
| WorkoutContext.IsLastExerciseMeansDeleteEmptiesWorkout | src/context/WorkoutContext.tsx:200-207 | `isLastExerciseInWorkout` is false for an undefined workout; for a defined one it holds exactly when the workout has one exercise and deleting the identifier empties it |
| WorkoutContext.WithoutWorkout | src/context/WorkoutContext.tsx:224-226 | the catalog minus the workouts with the identifier: every other workout kept with its multiplicity, none with the identifier left |
| WorkoutContext.WithoutWorkoutKeepsOrder | src/context/WorkoutContext.tsx:224-226 | the remaining workouts keep their order, and deleting an absent identifier changes nothing |
| WorkoutContext.SelectionAfterDeleteAsWritten | src/context/WorkoutContext.tsx:217-219 | the code's selection after a delete: with a selected workout that has exercises it is that workout's first exercise as captured before the delete; otherwise, on a non-empty catalog, it is what `find` returns for a surviving exercise of the first workout (none when that workout keeps none); it throws exactly when the catalog is empty and the selected workout has no exercise |
| WorkoutContext.SelectionAsWrittenSelectsDeleted | src/context/WorkoutContext.tsx:217-219 | as written, deleting the first exercise of the selected workout selects the exercise just deleted |
| WorkoutContext.FirstSurvivor | src/context/WorkoutContext.tsx:211-213 | the first exercise of a workout that survives the delete is the one `find` returns, and is the workout's first exercise when that one survives |
| WorkoutContext.CurrentWorkout | src/context/WorkoutContext.tsx:217 | the selected workout as the catalog now holds it: a catalog workout with the selected workout's identifier, and none exactly when nothing is selected or no catalog workout has that identifier |
| WorkoutContext.SurvivorsInCatalog | src/context/WorkoutContext.tsx:210-215 | every exercise a catalog workout keeps after the delete is in some workout of the updated catalog |
| WorkoutContext.SelectionAfterDelete | src/context/WorkoutContext.tsx:217-219 | the corrected selection never picks the deleted identifier, and throws exactly when the catalog is empty |
| WorkoutContext.SelectionAfterDeleteInCatalog | src/context/WorkoutContext.tsx:210-219 | an exercise the corrected selection picks is in some workout of the updated catalog |
| WorkoutContext.SelectionAfterDeletePrefersCurrentWorkout | src/context/WorkoutContext.tsx:217-218 | when the selected workout, looked up by identifier in the catalog, keeps an exercise, the corrected selection is the first one it keeps |
| WorkoutContext.SelectionAfterDeleteFallsBack | src/context/WorkoutContext.tsx:218 | when there is no such workout or it keeps no exercise, the corrected selection is what the code selects with no selected workout |
| WorkoutContext.SelectionAfterDeleteAgreesWithCode | src/context/WorkoutContext.tsx:217-219 | when the selected workout is as the catalog holds it and its first exercise is not the deleted one, the corrected selection is the code's |
| WorkoutContext.StaleSelectionCounterexample | src/context/WorkoutContext.tsx:217-219 | with workout [E1, E2] selected, deleting E1 selects E1 as written and E2 once corrected |
| WorkoutContext.EmptyCatalogStaleSelection | src/context/WorkoutContext.tsx:217-219 | on an empty catalog with workout [E1, E2] still selected, the code selects E1 without throwing, while the correction throws |
| WorkoutContext.DeleteFirstOfThree | src/context/WorkoutContext.tsx:211-213 | deleting E1 from [E1, E2, E3] leaves [E2, E3] |
| WorkoutContext.RepeatedDeleteFirstStep | src/context/WorkoutContext.tsx:210-215 | deleting E1 from the catalog [W2] changes only W2's exercises, to [E2, E3] |
| WorkoutContext.RepeatedDeleteSecondStep | src/context/WorkoutContext.tsx:210-215 | deleting E2 next leaves W2 with [E3] |
| WorkoutContext.RepeatedDeleteScenario | src/context/WorkoutContext.tsx:217-219 | with W2 = [E1, E2, E3] selected and E1 already deleted, deleting E2 selects E1 as written, which is no longer in the catalog, and E3 once corrected |
| WorkoutContext.WorkoutProvider.constructor | src/context/WorkoutContext.tsx:131-140 | the store starts with an empty catalog, no selection and no session |
| WorkoutContext.WorkoutProvider.IsWorkoutsEmpty | src/context/WorkoutContext.tsx:232-234 | true exactly when the catalog has no workout |
| WorkoutContext.WorkoutProvider.SetWorkoutSession | src/context/WorkoutContext.tsx:138-140 | the session is replaced wholesale and nothing else changes |
| WorkoutContext.WorkoutProvider.SetSelectedWorkout | src/context/WorkoutContext.tsx:134 | the selected workout is replaced and nothing else changes |
| WorkoutContext.WorkoutProvider.SetSelectedExercise | src/context/WorkoutContext.tsx:135-137 | the selected exercise is replaced and nothing else changes |
| WorkoutContext.WorkoutProvider.AppendWorkout | src/context/WorkoutContext.tsx:236-238 | the catalog gains the workout at its end, with no deduplication, and nothing else changes |
| WorkoutContext.WorkoutProvider.DeleteWorkout | src/context/WorkoutContext.tsx:223-230 | the catalog becomes `WithoutWorkout` of the old one and the selected workout is cleared; the rest is unchanged |
| WorkoutContext.WorkoutProvider.DeleteExercise | src/context/WorkoutContext.tsx:209-221 | the catalog becomes `DeleteExerciseEverywhere` of the old one; the selected exercise becomes the corrected selection; the call fails, leaving the selected exercise as it was, exactly when the catalog was empty |
| Community.IsLiked | src/pages/Community/index.tsx:93-95 | some like of the workout is the current user's; a toggle flips it (`ToggledLikes`, `ToggleLikeIn`) |
| Community.ToggledLikes | src/pages/Community/index.tsx:116-119 | whether the user likes the workout flips; unliking removes exactly the user's likes, and liking appends one like by the user at the end |
| Community.CountsAddUp | src/pages/Community/index.tsx:116-119 | the user's likes and the other users' likes together account for every like |
| Community.ToggleKeepsOtherLikes | src/pages/Community/index.tsx:116-119 | a toggle leaves the other users' likes as they were, in order |
| Community.ToggleLikesTwice | src/pages/Community/index.tsx:116-119 | liking and then unliking a workout the user had not liked restores its likes |
| Community.ToggleKeepsAtMostOneLike | src/pages/Community/index.tsx:116-119 | a user with at most one like on a workout still has at most one after a toggle, and whether they like it flips |
| Community.ToggleLikeIn | src/pages/Community/index.tsx:113-125 | the feed keeps its length; workouts with another identifier are unchanged; a workout with the identifier changes only in its likes, which are toggled, so `isLiked` flips |
| Community.ToggleLikeInTwice | src/pages/Community/index.tsx:113-125 | toggling twice restores the feed when the user liked none of the matching workouts |
| Community.CommunityPage.constructor | src/pages/Community/index.tsx:21-24 | the page starts with the user's identifier, an empty feed and no like in flight |
| Community.CommunityPage.ReceivePublicWorkouts | src/pages/Community/index.tsx:74-76 | on a successful fetch the feed becomes the response data, and the in-flight set is unchanged |
| Community.CommunityPage.BeginToggleLike | src/pages/Community/index.tsx:98 | the workout's identifier joins the in-flight set, and the feed is unchanged |
| Community.CommunityPage.FinishToggleLike | src/pages/Community/index.tsx:100-134 | whether or not the request succeeded, the feed becomes `ToggleLikeIn` of the old one and the identifier leaves the in-flight set |
| Community.CommunityPage.ToggleLike | src/pages/Community/index.tsx:97-135 | run alone, `toogleLike` toggles the feed, removes the identifier from the in-flight set and leaves every other identifier's presence unchanged |
| WorkoutList.Toggled | src/pages/WorkoutList/index.tsx:13-19 | the workout's membership flips; an absent workout is appended at the end; every other identifier is present exactly when it was |
| WorkoutList.ToggleKeepsOthersInOrder | src/pages/WorkoutList/index.tsx:13-19 | the other open identifiers keep their order |
| WorkoutList.ToggleTwice | src/pages/WorkoutList/index.tsx:13-19 | opening and then closing a closed workout restores the list |
| WorkoutList.ToggleKeepsNoDuplicates | src/pages/WorkoutList/index.tsx:13-19 | a list without repeated identifiers stays without them |
| WorkoutList.WorkoutListPage.constructor | src/pages/WorkoutList/index.tsx:11 | no workout starts expanded |
| WorkoutList.WorkoutListPage.IsOpen | src/pages/WorkoutList/index.tsx:44 | the workout's identifier is among the open ones; `ToggleWorkout` flips it |
| WorkoutList.WorkoutListPage.ToggleWorkout | src/pages/WorkoutList/index.tsx:13-19 | the open list becomes `Toggled` of the old one, so `isOpen` of that workout flips |
| WorkoutRegister.WithField | src/pages/WorkoutRegister/index.tsx:47 | the chosen field takes the value and every other field is kept |
| WorkoutRegister.FieldsDetermineExercise | src/pages/WorkoutRegister/index.tsx:6-14 | two form exercises with equal fields are equal |
| WorkoutRegister.BlankIsInitial | src/pages/WorkoutRegister/index.tsx:16-24 | an exercise has every field empty exactly when it is `initialExercise` |
| WorkoutRegister.Appended | src/pages/WorkoutRegister/index.tsx:36-38 | the list gains one entry at its end, which is blank, and the earlier entries are kept |
| WorkoutRegister.RemovedAt | src/pages/WorkoutRegister/index.tsx:40-42 | the entry at the index is dropped and the others keep their order; an index outside the list changes nothing |
| WorkoutRegister.UpdatedAt | src/pages/WorkoutRegister/index.tsx:44-52 | same length; only the entry at the index changes, and only in the chosen field; an index outside the list changes nothing |
| WorkoutRegister.RemoveUndoesAdd | src/pages/WorkoutRegister/index.tsx:36-42 | removing the entry just added gives back the list before it |
| WorkoutRegister.UpdateWithSameValueIsIdentity | src/pages/WorkoutRegister/index.tsx:44-52 | writing back a field's own value changes nothing |
| WorkoutRegister.UpdateTwiceLastWins | src/pages/WorkoutRegister/index.tsx:44-52 | of two writes to the same field of the same entry, the later one wins |
| WorkoutRegister.RegisterForm.constructor | src/pages/WorkoutRegister/index.tsx:31-32 | the form starts with an empty name and one blank entry |
| WorkoutRegister.RegisterForm.SetWorkoutName | src/pages/WorkoutRegister/index.tsx:87 | the name is replaced, and the entries are unchanged |
| WorkoutRegister.RegisterForm.AddExercise | src/pages/WorkoutRegister/index.tsx:36-38 | the entries become `Appended` of the old ones, and the list stays non-empty |
| WorkoutRegister.RegisterForm.RemoveExercise | src/pages/WorkoutRegister/index.tsx:100-103 | reachable only while there is more than one entry; the entries become `RemovedAt` of the old ones, so at least one entry remains |
| WorkoutRegister.RegisterForm.UpdateExercise | src/pages/WorkoutRegister/index.tsx:44-52 | the entries become `UpdatedAt` of the old ones, and the name is unchanged |
| WorkoutRegister.RegisterForm.ClearFields | src/pages/WorkoutRegister/index.tsx:66-69 | back to an empty name and one blank entry |

## Left out

- Network calls are not modelled: `fetchWorkouts`, `addWorkout`, `fetchWorkoutHistory`, `fetchPublicWorkouts`' request, the like POST and the copy-workout request. Their outcomes enter only as parameters (`ReceivePublicWorkouts`' data, `FinishToggleLike`'s `requestSucceeded`).
- Toasts, console logging, navigation, modals and the search box are presentation only.
- The loading flags `loadingWorkouts`, `workoutsLoaded`, `loading`, `isCopying` and `loadingWorkoutHistory` are not modelled; only the in-flight set `loadingLikes` is.
- The workout history and its `WorkoutStats` are not modelled; they are computed on the server.
- The registration form's `handleSubmit` (src/pages/WorkoutRegister/index.tsx:54-64) is not modelled. It calls the network operation `addWorkout` with three arguments where its declaration (src/context/WorkoutContext.tsx:264-269) takes four, so the list is passed in the `userId` position. Because `addWorkout` swallows a failed request in its `.catch`, `handleSubmit` then calls the modelled `ClearFields` whatever the outcome, around the unmodelled `loading` flag.
- Session timestamps are opaque strings that are never parsed; only whether `endedAt` is null matters.
- `Visibility` is declared locally as PRIVATE | PUBLIC: src/context/WorkoutContext.tsx:2 imports it from the registration page, whose file as shown declares no such type; its two values come from the data model.
- React scheduling is not modelled. Each state setter is an assignment that takes effect at once, so the stale-closure reads of `workouts` inside `deleteExercise` and `appendWorkout` are read as the current state.
- Interleaving of like requests is modelled only through separate `BeginToggleLike` / `FinishToggleLike` steps; no scheduler of several requests is modelled.
- WorkoutRegister.RegisterForm.UpdateExercise: the source accepts `string | number` for the value; the model takes text only, as every input passes `String(...)`.
- WorkoutContext.WorkoutProvider.DeleteExercise: uses the corrected selection (see Findings); the as-written selection is `SelectionAfterDeleteAsWritten`. The provider's `selectedWorkout` field itself is not refreshed after the delete, as in the code; the corrected selection looks it up in the catalog by identifier instead. As a consequence, on an empty catalog with a stale non-empty `selectedWorkout` (for instance after a fetch replaced the catalog) the code selects that workout's old first exercise and does not throw, while `DeleteExercise` returns `ok == false`; `EmptyCatalogStaleSelection` states both halves.

## Findings

| source | as written | input that shows it | evidently intended | confidence | as-written member | corrected member |
|---|---|---|---|---|---|---|
| src/context/WorkoutContext.tsx:217-219 | the new selected exercise is the first exercise of `selectedWorkout`, which is never refreshed after a delete, so it can be an exercise already deleted | W1 = [E1, E2] selected, `deleteExercise("e1")`: E1 is selected although it is no longer in the catalog; likewise W2 = [E1, E2, E3] selected, delete e1 and then e2: E1 is selected | the first exercise that remains in the selected workout as the updated catalog holds it (looked up by the workout's identifier): E2, and E3 in the second case | not executed | WorkoutContext.SelectionAfterDeleteAsWritten | WorkoutContext.SelectionAfterDelete |

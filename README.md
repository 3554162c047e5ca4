# Class Recording Manager: a Dafny model of the library core

Class Recording Manager keeps YouTube class recordings in a three-level tree.
The tree holds Subjects, a Subject holds Lessons, and a Lesson holds Videos.
This project models three parts of it:

- **The library store**: the `useDataManager` hook.
  - Its single state value, the `subjects` array, is the field of the class `DataManager.LibraryStore`.
  - Each operation of the hook is a method that replaces that field.
  - The new value comes from a pure function in `Catalog`. Those functions are the `map`/`filter`/`find` expressions the hook hands to `setSubjects`.
  - Failures (blank URL, failed lookup, no video processed) are `Result` values. On a failure the state is left as it was.
- **The video id extraction** (`YouTube`). `getYouTubeVideoId` is modelled as what its regular expression computes:
  - the greedy `.*` selects the rightmost marker;
  - the id is the longest run after that marker without `#`, `&` or `?`;
  - a run that is not 11 characters gives no id.

  The model also covers the checks `fetchVideoDetails` makes around its one request. The metadata service is a parameter `net`: the reply it gives for each lookup URL.
- **The main screen** (`Browse`):
  - the `filteredVideos` listing. It collects every video with three nested loops, then filters the result with a case-insensitive substring search;
  - selecting a subject;
  - the selection fallbacks after deleting the selected subject or lesson;
  - the screen state, kept in the class `Browse.AppView`.

Ids are never checked for uniqueness by the source. The model states the invariant that would keep them unique (`Catalog.WellFormed`). It proves that every operation preserves it when the fresh ids it is given are fresh.

Modules: `Wrappers` (Option, Result), `Text` (trim, lower-case, includes), `Types` (the entities of `types.ts`), `Lists` (the generic `filter`/`findIndex`/`find` by id), `YouTube`, `Catalog`, `DataManager`, `Browse`.

## Model

| member | source | states |
|---|---|---|
| Text.Trim | hooks/useDataManager.ts:38 | The result is a slice of `s` with only whitespace before and after it, and it begins and ends with a non-whitespace character (JavaScript's whitespace and line terminators) |
| Text.IsBlank | hooks/useDataManager.ts:38 | `!s.trim()` holds exactly when every character of `s` is whitespace (the empty string included) |
| Text.Lower | App.tsx:109 | Lower-casing keeps the length and lower-cases character by character |
| Text.Contains | App.tsx:125-127 | `includes`: the empty term occurs in every string, and a term longer than the string never occurs |
| Text.LowerIdempotent | App.tsx:109-127 | Lower-casing an already lower-cased term changes nothing |
| Lists.Without | hooks/useDataManager.ts:48 | `filter(x => x.id !== id)` keeps exactly the elements with another id, and keeps everything when none has that id |
| Lists.WithoutAppend | hooks/useDataManager.ts:48 | Filtering keeps relative order: it distributes over concatenation |
| Lists.WithoutKeepsDistinct | hooks/useDataManager.ts:48 | Filtering never makes two elements share an id |
| Lists.IndexOfId | App.tsx:97 | `findIndex` gives the first index holding the id, or -1 exactly when no element holds it |
| Lists.FindById | App.tsx:30-31 | `find` by id gives an element with that id exactly when one exists, and it is the first element with that id |
| Lists.FindByIdDistinct | App.tsx:30-31 | With unique ids, `find` by an element's id returns that element |
| Lists.FindByIdWithout | App.tsx:30 | Removing one id does not change what `find` returns for any other id |
| YouTube.MarkerLengthAt | services/youtubeService.ts:8 | Each of the seven marker alternatives has exactly one possible length at a position. The function returns that length, or 0 when no marker starts there |
| YouTube.LastMarkerBefore | services/youtubeService.ts:8 | The greedy `.*` stops at the rightmost position where a marker starts |
| YouTube.RunEnd | services/youtubeService.ts:8 | `[^#&?]*` takes the longest run without `#`, `&` or `?` |
| YouTube.GetYouTubeVideoId | services/youtubeService.ts:7-11 | A returned id has exactly 11 characters, none of them `#`, `&` or `?` |
| YouTube.IdFollowsMarker | services/youtubeService.ts:8-10 | A returned id sits in the URL right after a marker |
| YouTube.VideoIdFollowsRegex | services/youtubeService.ts:8-10 | With no match the result is null. With a match, the result is group 2 when it has 11 characters and null otherwise; no earlier marker is tried |
| YouTube.LookupUrl | services/youtubeService.ts:19 | The lookup URL exists exactly when an id was extracted. It is `https://www.youtube.com/watch?v=` followed by exactly the extracted 11-character id |
| YouTube.LookupUrlKeepsId | services/youtubeService.ts:14-19 | Extracting the id from the lookup URL gives back the id extracted from the user's URL |
| YouTube.CheckReply | services/youtubeService.ts:25-46 | The details are accepted exactly when the response is ok, carries no `error`, and has a non-empty title, author and thumbnail. The result holds exactly those three fields |
| YouTube.FetchVideoDetails | services/youtubeService.ts:13-57 | A URL with no id fails with InvalidUrl. With an id, the outcome is `CheckReply` of the service's reply to the lookup URL. Success implies an id and three non-empty fields |
| YouTube.FetchAsksOnlyForLookupUrl | services/youtubeService.ts:14-23 | The outcome depends only on the service's answer for the lookup URL. With no id, no request matters |
| Catalog.UpdateLessons | hooks/useDataManager.ts:86-90 | The lesson-level `map` edits the videos of the lessons with the id and leaves every other lesson as it was |
| Catalog.UpdateSubjects | hooks/useDataManager.ts:58 | `subjects.map` edits the lessons of the subjects with the id and no other subject |
| Catalog.EditVideos | hooks/useDataManager.ts:153-164 | The nested `map` edits only the videos of the addressed lesson. Ids, names and lesson counts stay, and the tree is unchanged when no such lesson exists |
| Catalog.AddSubject | hooks/useDataManager.ts:37-45 | A blank name changes nothing. Otherwise one empty subject with the untrimmed name goes last and the rest is untouched |
| Catalog.DeleteSubject | hooks/useDataManager.ts:47-49 | Exactly the subjects with another id remain. An absent id changes nothing |
| Catalog.DeleteSubjectKeepsOrder | hooks/useDataManager.ts:47-49 | The remaining subjects keep their relative order |
| Catalog.DeleteSubjectUndoesAdd | hooks/useDataManager.ts:37-49 | Deleting a subject just added under a fresh id restores the list |
| Catalog.AddLesson | hooks/useDataManager.ts:51-59 | A blank name or an unknown subject changes nothing. Otherwise one empty lesson goes last in the matching subject and every other subject is unchanged |
| Catalog.DeleteLesson | hooks/useDataManager.ts:61-67 | Only inside the matching subject, exactly the lessons with another id remain, in order. Other subjects are untouched |
| Catalog.DeleteLessonUndoesAdd | hooks/useDataManager.ts:51-67 | Deleting a lesson just added under a fresh id restores the tree |
| Catalog.DeleteLessonUndoesAddAt | hooks/useDataManager.ts:51-67 | The same round trip, for one subject of the tree |
| Catalog.NewVideo | hooks/useDataManager.ts:73-80 | The new video has the given id and URL and the fetched fields, and is not watched |
| Catalog.AddVideo | hooks/useDataManager.ts:69-94 | A blank URL fails first and a failed fetch fails next; either failure leaves no new tree. On success exactly one new video goes last in the addressed lesson and nothing else changes. An unknown lesson leaves the tree as it was |
| Catalog.DeleteVideo | hooks/useDataManager.ts:152-165 | Only the addressed lesson loses its videos with that id. Everything else, including ids and names, is unchanged |
| Catalog.DeleteVideoUndoesAppend | hooks/useDataManager.ts:152-165 | Deleting a video appended under a fresh id restores the tree |
| Catalog.DeleteVideoUndoesAdd | hooks/useDataManager.ts:69-94 | A successful `addVideo` followed by `deleteVideo` of its fresh id restores the tree |
| Catalog.FlipWatched | hooks/useDataManager.ts:174 | Only the videos with the id change, and only in `watched` |
| Catalog.ToggleVideoWatched | hooks/useDataManager.ts:167-180 | The tree keeps its shape and every field; `watched` flips only on the matching videos of the addressed lesson |
| Catalog.ToggleTwiceRestores | hooks/useDataManager.ts:167-180 | Toggling the same video twice restores the tree |
| Catalog.FetchOne | hooks/useDataManager.ts:97-112 | A URL gives a new unwatched video exactly when its fetch succeeds, and null otherwise |
| Catalog.FetchEach | hooks/useDataManager.ts:97-115 | The settled results are in URL order, one per URL |
| Catalog.Survivors | hooks/useDataManager.ts:116 | Exactly the non-null results remain |
| Catalog.SurvivorsKeepOrder | hooks/useDataManager.ts:116 | The survivors keep the URL order: the filter distributes over concatenation |
| Catalog.SuccessCount | hooks/useDataManager.ts:116-120 | The count is 0 exactly when every fetch fails |
| Catalog.SurvivorsCountSuccesses | hooks/useDataManager.ts:115-149 | The number of surviving videos, which the call returns, equals the number of successful fetches |
| Catalog.SameName | hooks/useDataManager.ts:125 | Two names are equal ignoring case exactly when they have the same length and agree character by character once lower-cased |
| Catalog.FindLessonNamed | hooks/useDataManager.ts:125 | Finds the first lesson whose name equals `lessonName` ignoring case, or none exactly when no name matches |
| Catalog.MergeLessons | hooks/useDataManager.ts:124-144 | With a matching lesson, the new videos go last in the lessons sharing its id. Otherwise one new lesson named `lessonName`, holding exactly the new videos, goes last |
| Catalog.MergeChangesFirstMatchOnly | hooks/useDataManager.ts:128-134 | With unique lesson ids, only the first matching lesson changes, and it gains exactly the new videos at its end |
| Catalog.AddBulkVideos | hooks/useDataManager.ts:96-150 | Fails with NoVideosProcessed exactly when no fetch succeeds. Otherwise it returns the number of successes and merges the survivors into the addressed subject only |
| Catalog.AddSubjectKeepsWellFormed | hooks/useDataManager.ts:37-45 | A fresh subject id keeps all ids unique |
| Catalog.DeleteSubjectKeepsWellFormed | hooks/useDataManager.ts:47-49 | Deleting a subject keeps all ids unique |
| Catalog.AddLessonKeepsWellFormed | hooks/useDataManager.ts:51-59 | A fresh lesson id keeps all ids unique |
| Catalog.AppendLessonKeepsWellFormed | hooks/useDataManager.ts:52-57 | Appending an empty lesson with an unused id keeps a subject's lesson and video ids unique |
| Catalog.DeleteLessonKeepsWellFormed | hooks/useDataManager.ts:61-67 | Deleting a lesson keeps all ids unique |
| Catalog.EditVideosKeepsWellFormed | hooks/useDataManager.ts:153-164 | An edit that keeps one lesson's video ids unique keeps all ids unique |
| Catalog.AddVideoKeepsWellFormed | hooks/useDataManager.ts:69-94 | A fresh video id keeps all ids unique |
| Catalog.DeleteVideoKeepsWellFormed | hooks/useDataManager.ts:152-165 | Deleting a video keeps all ids unique |
| Catalog.ToggleKeepsWellFormed | hooks/useDataManager.ts:167-180 | Toggling keeps all ids unique |
| Catalog.SurvivorsDistinct | hooks/useDataManager.ts:97-116 | With distinct ids for the URLs, the surviving videos have distinct ids, all drawn from those ids |
| Catalog.SurvivorIdsFromIds | hooks/useDataManager.ts:97-116 | Every surviving video carries one of the ids given for the URLs |
| Catalog.MergeKeepsWellFormed | hooks/useDataManager.ts:124-144 | Merging fresh, distinct videos, with a fresh id for a new lesson, keeps the lessons' ids unique |
| Catalog.AddBulkKeepsWellFormed | hooks/useDataManager.ts:96-150 | Bulk add with fresh, distinct ids keeps all ids unique |
| DataManager.LibraryStore.constructor | hooks/useDataManager.ts:21 | The store starts from the given tree |
| DataManager.LibraryStore.AddSubject | hooks/useDataManager.ts:37-45 | The state becomes `Catalog.AddSubject` of the old state. A fresh id keeps ids unique |
| DataManager.LibraryStore.DeleteSubject | hooks/useDataManager.ts:47-49 | The state becomes `Catalog.DeleteSubject` of the old state. Ids stay unique |
| DataManager.LibraryStore.AddLesson | hooks/useDataManager.ts:51-59 | The state becomes `Catalog.AddLesson` of the old state. A fresh id keeps ids unique |
| DataManager.LibraryStore.DeleteLesson | hooks/useDataManager.ts:61-67 | The state becomes `Catalog.DeleteLesson` of the old state. Ids stay unique |
| DataManager.LibraryStore.AddVideo | hooks/useDataManager.ts:69-94 | On success the state is the new tree. On failure the error is returned and the state is unchanged. A fresh id keeps ids unique |
| DataManager.LibraryStore.AddBulkVideos | hooks/useDataManager.ts:96-150 | On success the state is the merged tree and the count is returned. With no success, NoVideosProcessed is returned and the state is unchanged. Fresh ids keep ids unique |
| DataManager.LibraryStore.DeleteVideo | hooks/useDataManager.ts:152-165 | The state becomes `Catalog.DeleteVideo` of the old state. Ids stay unique |
| DataManager.LibraryStore.ToggleVideoWatched | hooks/useDataManager.ts:167-180 | The state becomes `Catalog.ToggleVideoWatched` of the old state. Ids stay unique |
| Browse.VideoHits | App.tsx:113-121 | One hit per video of a lesson, in order, carrying the video and the names and ids of its lesson and subject |
| Browse.LessonHits | App.tsx:112-122 | The hits of one subject's lessons all carry that subject's id and name |
| Browse.AllHits | App.tsx:110-123 | Every collected hit carries the id and name of a subject of the library |
| Browse.CollectVideos | App.tsx:110-123 | The three nested loops push exactly the hits of `AllHits`: every video, subject by subject, lesson by lesson |
| Browse.AllHitsMembers | App.tsx:110-123 | The collected hits are exactly the videos of the tree, each with the names and ids of the lesson and subject that hold it |
| Browse.LessonHitsMembers | App.tsx:112-122 | The hits of a subject's lessons are exactly those lessons' videos |
| Browse.AllHitsAppend | App.tsx:111-123 | The listing follows subject order: it distributes over concatenation of subjects |
| Browse.DeleteSubjectRemovesItsHits | App.tsx:83 | After deleting a subject, the full listing is the old one without that subject's videos, in the same order |
| Browse.MatchesTerm | App.tsx:124-128 | A hit matches when its lower-cased title, lesson name or subject name contains the term: every hit matches the empty term, and a term longer than all three fields matches none |
| Browse.MatchingHits | App.tsx:124-128 | The filter keeps exactly the hits whose lower-cased title, lesson name or subject name contains the term |
| Browse.MatchingHitsAppend | App.tsx:124-128 | The filter keeps the listing order |
| Browse.MatchingHitsCons | App.tsx:124-128 | One filter step: the first hit is kept exactly when it matches, and the rest is filtered in order |
| Browse.FilteredVideos | App.tsx:105-129 | An empty term lists the selected lesson's videos, or nothing when no lesson is selected. Otherwise it lists, in tree order, exactly the videos of the tree that match the lower-cased term (sound and complete) |
| Browse.SelectedSubject | App.tsx:30 | The selected subject is found exactly when a subject with the selected id exists, and it is the first such subject |
| Browse.SelectedLesson | App.tsx:31 | The selected lesson is found exactly when the selected subject has a lesson with the selected id, and it is the first such lesson |
| Browse.SelectSubject | App.tsx:33-38 | The subject is selected. The first lesson of the matching subject is selected, or none when the subject is unknown or has no lessons |
| Browse.SelectSubjectShowsFirstLesson | App.tsx:33-38 | With unique ids, selecting a subject shows that subject and its first lesson, or no lesson when it has none |
| Browse.AfterSubjectDeleted | App.tsx:84-87 | Deleting the selected subject sets both the subject and the lesson to none; any other selection is kept |
| Browse.DeleteSubjectKeepsOtherView | App.tsx:80-89 | Deleting the selected subject shows no subject and no lesson. Deleting another subject leaves the shown subject and lesson as they were |
| Browse.NextLesson | App.tsx:97-100 | A replacement exists exactly when the deleted lesson is found in a subject with at least two lessons. It is the next lesson when the first is deleted, otherwise the previous one |
| Browse.AfterLessonDeleted | App.tsx:95-101 | Only deleting the selected lesson changes the selection, and then only the lesson part, to the replacement |
| Browse.DeleteLessonShowsNeighbour | App.tsx:91-103 | With unique ids, a lesson stays selected exactly when the subject had the deleted lesson and another one. The replacement is not the deleted lesson and is still shown after the deletion |
| Browse.NextLessonExists | App.tsx:97-100 | A replacement lesson exists exactly when the selected subject has the deleted lesson and at least one other |
| Browse.NextLessonSurvives | App.tsx:91-103 | With unique ids, the replacement lesson is found again in the subject after the deletion |
| Browse.OtherLessonSurvives | hooks/useDataManager.ts:60-66 | With unique lesson ids, any lesson other than the deleted one is still found by its id after the deletion |
| Browse.AppView.constructor | App.tsx:16-18 | Nothing is selected and the search term is empty |
| Browse.AppView.SetSearchTerm | App.tsx:166-167 | Typing in the search box changes the term and keeps the selection |
| Browse.AppView.ShownVideos | App.tsx:105-129 | The listing for the view's own state: the selected lesson's videos with an empty term, otherwise exactly the matching videos of the store's tree, in tree order |
| Browse.AppView.HandleSelectSubject | App.tsx:33-38 | The selection becomes `SelectSubject` of the current tree; the search term is kept |
| Browse.AppView.HandleDeleteSubject | App.tsx:80-89 | Once confirmed, the store deletes the subject and the selection follows `AfterSubjectDeleted`. Unconfirmed, nothing changes |
| Browse.AppView.HandleDeleteLesson | App.tsx:91-103 | With a subject selected and the deletion confirmed, the store deletes the lesson. The replacement comes from the tree before the deletion. Otherwise nothing changes |

## Left out

- Persistence is not modelled: loading from and saving to `localStorage`, and JSON parse and stringify (hooks/useDataManager.ts:5-35). `DataManager.LibraryStore.constructor` takes the initial tree as a parameter.
- The `loading` flag (hooks/useDataManager.ts:22-27) is not modelled, because it only chooses what the screen renders.
- `crypto.randomUUID()` is not modelled. Fresh ids are parameters, and uniqueness is a hypothesis of the `...KeepsWellFormed` lemmas, because the source never checks it.
- Catalog.AddBulkVideos: takes one id for a new lesson. The source draws a new id for each subject whose id matches, which differs only when several subjects share one id.
- The metadata service is not modelled: the `fetch` to noembed, `encodeURIComponent`, JSON decoding, and the asynchronous `await`. It is the parameter `net`, giving the reply for each lookup URL. Within one bulk add, the same lookup URL therefore gets the same reply.
- The `Promise.all` fan-out in `addBulkVideos` is not modelled as concurrency. Its settled results are the sequence `Catalog.FetchEach`, in URL order.
- YouTube.FetchVideoDetails: errors are kinds (`InvalidUrl`, `BadStatus`, `ServiceError`, `IncompleteDetails`, `NetworkError`) rather than message texts. The rewrapping of messages in the `catch` block only changes texts.
- YouTube.GetYouTubeVideoId: assumes the URL holds no line terminator. The regular expression's `.` does not match one, and such URLs are out of scope.
- YouTube.GetYouTubeVideoId: counts Unicode scalar values, where the source's 11-character check and the `.` in `youtu.be` count UTF-16 code units. A URL whose id run, or the character in place of that dot, lies outside the Basic Multilingual Plane can give a different result (for `https://youtu.be/` followed by an emoji and nine digits, the source returns an id and the model returns none).
- Text.Lower: lower-cases ASCII letters only. `toLowerCase` also maps the other Unicode letters, and those are left unchanged here; this affects the search and the lesson-name match in bulk add.
- The user's answer to `window.confirm` is a `confirmed` parameter, and the event's `stopPropagation` is not modelled.
- `moveVideo`, `renameSubject` and `renameLesson` are not modelled. The screen calls them (App.tsx:14, 51, 71-73), but the hook neither defines nor returns them (hooks/useDataManager.ts:182-193).
- The rest of the repository is not part of this model: the modals and other components, the rendering in App.tsx, `services/geminiService.ts`, `api/organize-videos.ts`, `api/summarize-video.ts` and `services/db.ts`. They are presentation code, calls to hosted services, or a storage schema with no logic.
- `addBulkVideos` does not reject a blank `lessonName`; only its modal does (components/modals/AddBulkVideosModal.tsx:56). The model follows the hook, so a blank name can create a lesson with that name.

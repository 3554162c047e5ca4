/**
 * The state-update bodies of the library hook: each operation maps the
 * current list of subjects to the next one with `map`, `filter` and `find`,
 * exactly as the functions passed to `setSubjects` do. Fresh ids, which the
 * source draws from `crypto.randomUUID()`, are parameters; so is the
 * metadata service (`net`).
 */
module Catalog {
  import opened Wrappers
  import opened Text
  import opened Types
  import opened Lists
  import YouTube

  /** The errors the hook's operations throw. */
  datatype StoreError =
    | EmptyUrl                                 // "URL cannot be empty."
    | FetchFailed(cause: YouTube.FetchError)   // re-thrown from fetchVideoDetails
    | NoVideosProcessed                        // "Could not process any of the provided video URLs."

  // ---------------------------------------------------------------------------
  // The nested `map`s every lesson- and video-level operation is built from.

  /** Array `map` over the subjects: those with id `id` get `edit` applied to their lessons. */
  function UpdateSubjects(ss: seq<Subject>, id: Id, edit: seq<Lesson> -> seq<Lesson>): (r: seq<Subject>)
    ensures |r| == |ss|
    ensures forall i :: 0 <= i < |ss| ==>
      r[i] == if ss[i].id == id then ss[i].(lessons := edit(ss[i].lessons)) else ss[i]
  {
    seq(|ss|, i requires 0 <= i < |ss| => if ss[i].id == id then ss[i].(lessons := edit(ss[i].lessons)) else ss[i])
  }

  /** Array `map` over one subject's lessons: those with id `id` get `edit` applied to their videos. */
  function UpdateLessons(ls: seq<Lesson>, id: Id, edit: seq<Video> -> seq<Video>): (r: seq<Lesson>)
    ensures |r| == |ls|
    ensures forall j :: 0 <= j < |ls| ==>
      r[j] == if ls[j].id == id then ls[j].(videos := edit(ls[j].videos)) else ls[j]
  {
    seq(|ls|, j requires 0 <= j < |ls| => if ls[j].id == id then ls[j].(videos := edit(ls[j].videos)) else ls[j])
  }

  /** The lesson `lessonId` of the subject `subjectId` exists. */
  predicate Addresses(ss: seq<Subject>, subjectId: Id, lessonId: Id) {
    exists s, l :: s in ss && l in s.lessons && s.id == subjectId && l.id == lessonId
  }

  /**
   * Apply `edit` to the videos of every lesson `lessonId` of every subject
   * `subjectId`; ids, names and the number of lessons stay as they are.
   */
  function EditVideos(ss: seq<Subject>, subjectId: Id, lessonId: Id, edit: seq<Video> -> seq<Video>): (r: seq<Subject>)
    ensures |r| == |ss|
    ensures forall i :: 0 <= i < |ss| ==>
      r[i].id == ss[i].id && r[i].name == ss[i].name && |r[i].lessons| == |ss[i].lessons|
    ensures forall i, j :: 0 <= i < |ss| && 0 <= j < |ss[i].lessons| ==>
      r[i].lessons[j] ==
        if ss[i].id == subjectId && ss[i].lessons[j].id == lessonId
        then ss[i].lessons[j].(videos := edit(ss[i].lessons[j].videos))
        else ss[i].lessons[j]
    ensures !Addresses(ss, subjectId, lessonId) ==> r == ss
  {
    var r := UpdateSubjects(ss, subjectId, ls => UpdateLessons(ls, lessonId, edit));
    assert !Addresses(ss, subjectId, lessonId) ==> r == ss by {
      if !Addresses(ss, subjectId, lessonId) {
        forall i | 0 <= i < |ss| ensures r[i] == ss[i] {
          if ss[i].id == subjectId {
            assert ss[i] in ss;
            assert forall j :: 0 <= j < |ss[i].lessons| ==> ss[i].lessons[j] in ss[i].lessons;
            assert r[i].lessons == ss[i].lessons;
          }
        }
      }
    }
    r
  }

  // ---------------------------------------------------------------------------
  // Subjects

  /** `addSubject(name)`: a blank name changes nothing; otherwise one new empty subject goes last. */
  function AddSubject(ss: seq<Subject>, name: string, newId: Id): (r: seq<Subject>)
    ensures IsBlank(name) ==> r == ss
    ensures !IsBlank(name) ==>
      |r| == |ss| + 1 && r[..|ss|] == ss && r[|ss|] == Subject(newId, name, [])
  {
    if IsBlank(name) then ss else ss + [Subject(newId, name, [])]
  }

  /** `deleteSubject(id)`: every subject with that id goes, with its lessons and videos. */
  function DeleteSubject(ss: seq<Subject>, id: Id): (r: seq<Subject>)
    ensures forall s :: s in r <==> s in ss && s.id != id
    ensures (forall s :: s in ss ==> s.id != id) ==> r == ss
  {
    Without(ss, SubjectKey, id)
  }

  /** Deleting keeps the other subjects in their order: it commutes with concatenation. */
  lemma DeleteSubjectKeepsOrder(ss: seq<Subject>, ts: seq<Subject>, id: Id)
    ensures DeleteSubject(ss + ts, id) == DeleteSubject(ss, id) + DeleteSubject(ts, id)
  {
    WithoutAppend(ss, ts, SubjectKey, id);
  }

  /** Deleting a subject just added with a fresh id gives back the list before the addition. */
  lemma DeleteSubjectUndoesAdd(ss: seq<Subject>, name: string, newId: Id)
    requires forall s :: s in ss ==> s.id != newId
    ensures DeleteSubject(AddSubject(ss, name, newId), newId) == ss
  {
    if !IsBlank(name) {
      WithoutAppend(ss, [Subject(newId, name, [])], SubjectKey, newId);
    }
  }

  // ---------------------------------------------------------------------------
  // Lessons

  /**
   * `addLesson(subjectId, name)`: a blank name changes nothing; otherwise one
   * new empty lesson goes last in the matching subject, and nothing else changes.
   */
  function AddLesson(ss: seq<Subject>, subjectId: Id, name: string, newId: Id): (r: seq<Subject>)
    ensures |r| == |ss|
    ensures forall i :: 0 <= i < |ss| ==>
      r[i] == if ss[i].id == subjectId && !IsBlank(name)
              then ss[i].(lessons := ss[i].lessons + [Lesson(newId, name, [])])
              else ss[i]
    ensures IsBlank(name) || (forall s :: s in ss ==> s.id != subjectId) ==> r == ss
  {
    if IsBlank(name) then ss
    else
      var r := UpdateSubjects(ss, subjectId, ls => ls + [Lesson(newId, name, [])]);
      assert (forall s :: s in ss ==> s.id != subjectId) ==> r == ss by {
        if forall s :: s in ss ==> s.id != subjectId {
          assert forall i :: 0 <= i < |ss| ==> ss[i] in ss;
        }
      }
      r
  }

  /**
   * `deleteLesson(subjectId, lessonId)`: inside the matching subject, the
   * lessons with that id go and the rest keep their order; other subjects stay.
   */
  function DeleteLesson(ss: seq<Subject>, subjectId: Id, lessonId: Id): (r: seq<Subject>)
    ensures |r| == |ss|
    ensures forall i :: 0 <= i < |ss| ==> r[i].id == ss[i].id && r[i].name == ss[i].name
    ensures forall i :: 0 <= i < |ss| && ss[i].id != subjectId ==> r[i] == ss[i]
    ensures forall i :: 0 <= i < |ss| && ss[i].id == subjectId ==>
      r[i].lessons == Without(ss[i].lessons, LessonKey, lessonId)
    ensures forall i, l :: 0 <= i < |ss| && ss[i].id == subjectId ==>
      (l in r[i].lessons <==> l in ss[i].lessons && l.id != lessonId)
  {
    UpdateSubjects(ss, subjectId, ls => Without(ls, LessonKey, lessonId))
  }

  /** Deleting a lesson just added with a fresh id gives back the list before the addition. */
  lemma DeleteLessonUndoesAdd(ss: seq<Subject>, subjectId: Id, name: string, newId: Id)
    requires forall s, l :: s in ss && s.id == subjectId && l in s.lessons ==> l.id != newId
    ensures DeleteLesson(AddLesson(ss, subjectId, name, newId), subjectId, newId) == ss
  {
    var r := DeleteLesson(AddLesson(ss, subjectId, name, newId), subjectId, newId);
    forall i | 0 <= i < |ss| ensures r[i] == ss[i] {
      DeleteLessonUndoesAddAt(ss, subjectId, name, newId, i);
    }
  }

  /** The same, one subject at a time. */
  lemma DeleteLessonUndoesAddAt(ss: seq<Subject>, subjectId: Id, name: string, newId: Id, i: nat)
    requires forall s, l :: s in ss && s.id == subjectId && l in s.lessons ==> l.id != newId
    requires i < |ss|
    ensures DeleteLesson(AddLesson(ss, subjectId, name, newId), subjectId, newId)[i] == ss[i]
  {
    var added := AddLesson(ss, subjectId, name, newId);
    if ss[i].id == subjectId {
      assert ss[i] in ss;
      if !IsBlank(name) {
        WithoutUndoesAppend(ss[i].lessons, Lesson(newId, name, []), LessonKey);
      }
    }
  }

  // ---------------------------------------------------------------------------
  // Videos

  /** The video `addVideo` and `addBulkVideos` build from fetched details: not yet watched. */
  function NewVideo(id: Id, url: string, d: YouTube.Details): (v: Video)
    ensures v.id == id && v.url == url && !v.watched
    ensures v.title == d.title && v.authorName == d.authorName && v.thumbnailUrl == d.thumbnailUrl
  {
    Video(id, url, d.title, d.thumbnailUrl, d.authorName, false)
  }

  /** The videos `added` go after the existing ones in every addressed lesson. */
  function AppendVideos(ss: seq<Subject>, subjectId: Id, lessonId: Id, added: seq<Video>): seq<Subject> {
    EditVideos(ss, subjectId, lessonId, vs => vs + added)
  }

  /**
   * `addVideo(subjectId, lessonId, url)`: a blank URL fails before anything
   * else; a failed fetch fails; otherwise one new unwatched video goes last
   * in the addressed lesson (nothing changes if there is no such lesson).
   */
  function AddVideo(ss: seq<Subject>, subjectId: Id, lessonId: Id, url: string,
                    net: string -> YouTube.Reply, newId: Id): (r: Result<seq<Subject>, StoreError>)
    ensures IsBlank(url) ==> r == Failure(EmptyUrl)
    ensures !IsBlank(url) && YouTube.FetchVideoDetails(url, net).Failure? ==>
      r == Failure(FetchFailed(YouTube.FetchVideoDetails(url, net).error))
    ensures r.Success? <==> !IsBlank(url) && YouTube.FetchVideoDetails(url, net).Success?
    ensures r.Success? ==>
      var v := NewVideo(newId, url, YouTube.FetchVideoDetails(url, net).value);
      && |r.value| == |ss|
      && (forall i :: 0 <= i < |ss| ==>
            r.value[i].id == ss[i].id && r.value[i].name == ss[i].name && |r.value[i].lessons| == |ss[i].lessons|)
      && (forall i, j :: 0 <= i < |ss| && 0 <= j < |ss[i].lessons| ==>
            r.value[i].lessons[j] ==
              if ss[i].id == subjectId && ss[i].lessons[j].id == lessonId
              then ss[i].lessons[j].(videos := ss[i].lessons[j].videos + [v])
              else ss[i].lessons[j])
      && (!Addresses(ss, subjectId, lessonId) ==> r.value == ss)
  {
    if IsBlank(url) then Failure(EmptyUrl)
    else
      match YouTube.FetchVideoDetails(url, net)
      case Failure(e) => Failure(FetchFailed(e))
      case Success(d) => Success(AppendVideos(ss, subjectId, lessonId, [NewVideo(newId, url, d)]))
  }

  /** `deleteVideo(subjectId, lessonId, videoId)`: only the addressed lesson loses its videos with that id. */
  function DeleteVideo(ss: seq<Subject>, subjectId: Id, lessonId: Id, videoId: Id): (r: seq<Subject>)
    ensures |r| == |ss|
    ensures forall i :: 0 <= i < |ss| ==>
      r[i].id == ss[i].id && r[i].name == ss[i].name && |r[i].lessons| == |ss[i].lessons|
    ensures forall i, j :: 0 <= i < |ss| && 0 <= j < |ss[i].lessons| ==>
      r[i].lessons[j] ==
        if ss[i].id == subjectId && ss[i].lessons[j].id == lessonId
        then ss[i].lessons[j].(videos := Without(ss[i].lessons[j].videos, VideoKey, videoId))
        else ss[i].lessons[j]
  {
    EditVideos(ss, subjectId, lessonId, vs => Without(vs, VideoKey, videoId))
  }

  /** Deleting a video appended with a fresh id removes just that video again. */
  lemma DeleteVideoUndoesAppend(ss: seq<Subject>, subjectId: Id, lessonId: Id, v: Video)
    requires forall s, l, w :: s in ss && s.id == subjectId && l in s.lessons && l.id == lessonId && w in l.videos ==> w.id != v.id
    ensures DeleteVideo(AppendVideos(ss, subjectId, lessonId, [v]), subjectId, lessonId, v.id) == ss
  {
    var added := AppendVideos(ss, subjectId, lessonId, [v]);
    var r := DeleteVideo(added, subjectId, lessonId, v.id);
    forall i | 0 <= i < |ss| ensures r[i] == ss[i] {
      forall j | 0 <= j < |ss[i].lessons| ensures r[i].lessons[j] == ss[i].lessons[j] {
        var l := ss[i].lessons[j];
        if ss[i].id == subjectId && l.id == lessonId {
          assert ss[i] in ss && l in ss[i].lessons;
          assert added[i].lessons[j].videos == l.videos + [v];
          WithoutUndoesAppend(l.videos, v, VideoKey);
        }
      }
      assert r[i].lessons == ss[i].lessons;
    }
  }

  /** Deleting a video just added with a fresh id gives back the tree before the addition. */
  lemma DeleteVideoUndoesAdd(ss: seq<Subject>, subjectId: Id, lessonId: Id, url: string,
                             net: string -> YouTube.Reply, newId: Id)
    requires forall s, l, w :: s in ss && s.id == subjectId && l in s.lessons && l.id == lessonId && w in l.videos ==> w.id != newId
    ensures AddVideo(ss, subjectId, lessonId, url, net, newId).Success? ==>
      DeleteVideo(AddVideo(ss, subjectId, lessonId, url, net, newId).value, subjectId, lessonId, newId) == ss
  {
    if !IsBlank(url) && YouTube.FetchVideoDetails(url, net).Success? {
      DeleteVideoUndoesAppend(ss, subjectId, lessonId, NewVideo(newId, url, YouTube.FetchVideoDetails(url, net).value));
    }
  }

  /** Over one lesson's videos: every video with id `videoId` gets its `watched` flag negated. */
  function FlipWatched(vs: seq<Video>, videoId: Id): (r: seq<Video>)
    ensures |r| == |vs|
    ensures forall k :: 0 <= k < |vs| ==>
      r[k] == if vs[k].id == videoId then vs[k].(watched := !vs[k].watched) else vs[k]
  {
    seq(|vs|, k requires 0 <= k < |vs| => if vs[k].id == videoId then vs[k].(watched := !vs[k].watched) else vs[k])
  }

  /**
   * `toggleVideoWatched(subjectId, lessonId, videoId)`: the tree keeps its
   * shape and every field; only `watched` flips, and only on the matching
   * videos of the addressed lesson.
   */
  function ToggleVideoWatched(ss: seq<Subject>, subjectId: Id, lessonId: Id, videoId: Id): (r: seq<Subject>)
    ensures |r| == |ss|
    ensures forall i :: 0 <= i < |ss| ==>
      r[i].id == ss[i].id && r[i].name == ss[i].name && |r[i].lessons| == |ss[i].lessons|
    ensures forall i, j :: 0 <= i < |ss| && 0 <= j < |ss[i].lessons| ==>
      r[i].lessons[j].id == ss[i].lessons[j].id && r[i].lessons[j].name == ss[i].lessons[j].name
      && |r[i].lessons[j].videos| == |ss[i].lessons[j].videos|
    ensures forall i, j, k :: 0 <= i < |ss| && 0 <= j < |ss[i].lessons| && 0 <= k < |ss[i].lessons[j].videos| ==>
      var v := ss[i].lessons[j].videos[k];
      r[i].lessons[j].videos[k] ==
        if ss[i].id == subjectId && ss[i].lessons[j].id == lessonId && v.id == videoId
        then v.(watched := !v.watched)
        else v
  {
    EditVideos(ss, subjectId, lessonId, vs => FlipWatched(vs, videoId))
  }

  /** Toggling the same video twice restores the tree. */
  lemma ToggleTwiceRestores(ss: seq<Subject>, subjectId: Id, lessonId: Id, videoId: Id)
    ensures ToggleVideoWatched(ToggleVideoWatched(ss, subjectId, lessonId, videoId), subjectId, lessonId, videoId) == ss
  {
    var once := ToggleVideoWatched(ss, subjectId, lessonId, videoId);
    var twice := ToggleVideoWatched(once, subjectId, lessonId, videoId);
    forall i | 0 <= i < |ss| ensures twice[i] == ss[i] {
      forall j | 0 <= j < |ss[i].lessons| ensures twice[i].lessons[j] == ss[i].lessons[j] {
        var vs := ss[i].lessons[j].videos;
        forall k | 0 <= k < |vs| ensures twice[i].lessons[j].videos[k] == vs[k] {
        }
        assert twice[i].lessons[j].videos == vs;
      }
      assert twice[i].lessons == ss[i].lessons;
    }
  }

  // ---------------------------------------------------------------------------
  // Bulk add

  /** One settled fetch of the batch: the new video, or null when `fetchVideoDetails` threw. */
  function FetchOne(url: string, net: string -> YouTube.Reply, id: Id): (r: Option<Video>)
    ensures r.Some? <==> YouTube.FetchVideoDetails(url, net).Success?
    ensures r.Some? ==> r.value == NewVideo(id, url, YouTube.FetchVideoDetails(url, net).value)
  {
    match YouTube.FetchVideoDetails(url, net)
    case Success(d) => Some(NewVideo(id, url, d))
    case Failure(_) => None
  }

  /** All fetches of the batch, awaited together: the settled results in URL order; `ids[i]` is the id for `urls[i]`. */
  function FetchEach(urls: seq<string>, net: string -> YouTube.Reply, ids: seq<Id>): (r: seq<Option<Video>>)
    requires |ids| == |urls|
    ensures |r| == |urls|
    ensures forall i :: 0 <= i < |urls| ==> r[i] == FetchOne(urls[i], net, ids[i])
  {
    seq(|urls|, i requires 0 <= i < |urls| => FetchOne(urls[i], net, ids[i]))
  }

  /** The settled results with the nulls dropped, in order. */
  function Survivors(rs: seq<Option<Video>>): (r: seq<Video>)
    ensures |r| <= |rs|
    ensures forall v :: v in r <==> Some(v) in rs
  {
    if rs == [] then []
    else (if rs[0].Some? then [rs[0].value] else []) + Survivors(rs[1..])
  }

  /** The survivors keep the order of the URLs: surviving commutes with concatenation. */
  lemma {:induction false} SurvivorsKeepOrder(rs: seq<Option<Video>>, ts: seq<Option<Video>>)
    ensures Survivors(rs + ts) == Survivors(rs) + Survivors(ts)
  {
    if rs == [] {
      assert rs + ts == ts;
    } else {
      assert (rs + ts)[1..] == rs[1..] + ts;
      SurvivorsKeepOrder(rs[1..], ts);
    }
  }

  /** How many URLs of the batch fetch successfully. */
  function SuccessCount(urls: seq<string>, net: string -> YouTube.Reply): (n: nat)
    ensures n <= |urls|
    ensures n == 0 <==> forall i :: 0 <= i < |urls| ==> YouTube.FetchVideoDetails(urls[i], net).Failure?
  {
    if urls == [] then 0
    else
      (if YouTube.FetchVideoDetails(urls[0], net).Success? then 1 else 0) + SuccessCount(urls[1..], net)
  }

  /** One video survives per successful fetch. */
  lemma {:induction false} SurvivorsCountSuccesses(urls: seq<string>, net: string -> YouTube.Reply, ids: seq<Id>)
    requires |ids| == |urls|
    ensures |Survivors(FetchEach(urls, net, ids))| == SuccessCount(urls, net)
  {
    if urls != [] {
      var rs := FetchEach(urls, net, ids);
      assert rs[1..] == FetchEach(urls[1..], net, ids[1..]);
      SurvivorsCountSuccesses(urls[1..], net, ids[1..]);
    }
  }

  /** Two names are the same ignoring case: equal once both are lower-cased, character by character. */
  predicate SameName(a: string, b: string): (r: bool)
    ensures r <==> |a| == |b| && forall i :: 0 <= i < |a| ==> LowerChar(a[i]) == LowerChar(b[i])
  {
    Lower(a) == Lower(b)
  }

  /** Array `find` of the first lesson whose name is the same as `name` ignoring case, as its index. */
  function FindLessonNamed(ls: seq<Lesson>, name: string): (r: Option<nat>)
    ensures r.Some? ==> r.value < |ls| && SameName(ls[r.value].name, name)
    ensures r.Some? ==> forall k :: 0 <= k < r.value ==> !SameName(ls[k].name, name)
    ensures r.None? <==> forall k :: 0 <= k < |ls| ==> !SameName(ls[k].name, name)
  {
    if ls == [] then None
    else if SameName(ls[0].name, name) then Some(0)
    else match FindLessonNamed(ls[1..], name)
      case None => None
      case Some(k) => Some(k + 1)
  }

  /**
   * The new lessons of the addressed subject: the videos go last in every
   * lesson sharing the id of the first lesson whose name matches ignoring
   * case; with no such lesson, a new lesson holding exactly them goes last.
   */
  function MergeLessons(ls: seq<Lesson>, lessonName: string, added: seq<Video>, newLessonId: Id): (r: seq<Lesson>)
    ensures FindLessonNamed(ls, lessonName).Some? ==>
      var j := FindLessonNamed(ls, lessonName).value;
      |r| == |ls| && forall k :: 0 <= k < |ls| ==>
        r[k] == if ls[k].id == ls[j].id then ls[k].(videos := ls[k].videos + added) else ls[k]
    ensures FindLessonNamed(ls, lessonName).None? ==> r == ls + [Lesson(newLessonId, lessonName, added)]
  {
    match FindLessonNamed(ls, lessonName)
    case Some(j) => UpdateLessons(ls, ls[j].id, vs => vs + added)
    case None => ls + [Lesson(newLessonId, lessonName, added)]
  }

  /**
   * `addBulkVideos(subjectId, lessonName, urls)`: failed fetches are dropped;
   * with no survivor it fails and changes nothing; otherwise it merges the
   * survivors into the addressed subject and returns how many there were.
   */
  function AddBulkVideos(ss: seq<Subject>, subjectId: Id, lessonName: string, urls: seq<string>,
                         net: string -> YouTube.Reply, videoIds: seq<Id>, newLessonId: Id)
    : (r: Result<(seq<Subject>, nat), StoreError>)
    requires |videoIds| == |urls|
    ensures r.Failure? <==> SuccessCount(urls, net) == 0
    ensures r.Failure? ==> r.error == NoVideosProcessed
    ensures r.Success? ==> r.value.1 == SuccessCount(urls, net)
    ensures r.Success? ==>
      var added := Survivors(FetchEach(urls, net, videoIds));
      |r.value.0| == |ss| && forall i :: 0 <= i < |ss| ==>
        r.value.0[i] ==
          if ss[i].id == subjectId then ss[i].(lessons := MergeLessons(ss[i].lessons, lessonName, added, newLessonId))
          else ss[i]
  {
    var added := Survivors(FetchEach(urls, net, videoIds));
    SurvivorsCountSuccesses(urls, net, videoIds);
    if |added| == 0 then Failure(NoVideosProcessed)
    else
      Success((UpdateSubjects(ss, subjectId, ls => MergeLessons(ls, lessonName, added, newLessonId)), |added|))
  }

  /** With distinct lesson ids, bulk add changes exactly the first lesson whose name matches. */
  lemma MergeChangesFirstMatchOnly(ls: seq<Lesson>, lessonName: string, added: seq<Video>, newLessonId: Id)
    requires DistinctKeys(ls, LessonKey)
    requires FindLessonNamed(ls, lessonName).Some?
    ensures var j := FindLessonNamed(ls, lessonName).value;
      var r := MergeLessons(ls, lessonName, added, newLessonId);
      |r| == |ls| && r[j].videos == ls[j].videos + added
      && forall k :: 0 <= k < |ls| && k != j ==> r[k] == ls[k]
  {
    var j := FindLessonNamed(ls, lessonName).value;
    forall k | 0 <= k < |ls| && k != j ensures ls[k].id != ls[j].id {
      if k < j {
        assert LessonKey(ls[k]) != LessonKey(ls[j]);
      } else {
        assert LessonKey(ls[j]) != LessonKey(ls[k]);
      }
    }
  }

  // ---------------------------------------------------------------------------
  // The id invariant: the source never checks it; fresh ids keep it.

  /** Unique video ids within each lesson, unique lesson ids within the subject. */
  predicate LessonsWellFormed(ls: seq<Lesson>) {
    && DistinctKeys(ls, LessonKey)
    && forall j :: 0 <= j < |ls| ==> DistinctKeys(ls[j].videos, VideoKey)
  }

  /** Ids are unique among the subjects, among each subject's lessons and among each lesson's videos. */
  predicate WellFormed(ss: seq<Subject>) {
    && DistinctKeys(ss, SubjectKey)
    && forall i :: 0 <= i < |ss| ==> LessonsWellFormed(ss[i].lessons)
  }

  lemma AddSubjectKeepsWellFormed(ss: seq<Subject>, name: string, newId: Id)
    requires WellFormed(ss)
    requires forall s :: s in ss ==> s.id != newId
    ensures WellFormed(AddSubject(ss, name, newId))
  {
    var r := AddSubject(ss, name, newId);
    if !IsBlank(name) {
      forall i, j | 0 <= i < j < |r| ensures SubjectKey(r[i]) != SubjectKey(r[j]) {
        if j == |ss| {
          assert r[i] in ss;
        }
      }
    }
  }

  lemma DeleteSubjectKeepsWellFormed(ss: seq<Subject>, id: Id)
    requires WellFormed(ss)
    ensures WellFormed(DeleteSubject(ss, id))
  {
    WithoutKeepsDistinct(ss, SubjectKey, id);
    var r := DeleteSubject(ss, id);
    forall i | 0 <= i < |r| ensures LessonsWellFormed(r[i].lessons) {
      assert r[i] in ss;
    }
  }

  lemma AddLessonKeepsWellFormed(ss: seq<Subject>, subjectId: Id, name: string, newId: Id)
    requires WellFormed(ss)
    requires forall s, l :: s in ss && s.id == subjectId && l in s.lessons ==> l.id != newId
    ensures WellFormed(AddLesson(ss, subjectId, name, newId))
  {
    var r := AddLesson(ss, subjectId, name, newId);
    forall i | 0 <= i < |r| ensures LessonsWellFormed(r[i].lessons) {
      if ss[i].id == subjectId && !IsBlank(name) {
        assert ss[i] in ss;
        AppendLessonKeepsWellFormed(ss[i].lessons, Lesson(newId, name, []));
      }
    }
  }

  /** An empty lesson with an id not yet used goes last without breaking the lessons' invariant. */
  lemma AppendLessonKeepsWellFormed(ls: seq<Lesson>, l: Lesson)
    requires LessonsWellFormed(ls)
    requires l.videos == []
    requires forall x :: x in ls ==> x.id != l.id
    ensures LessonsWellFormed(ls + [l])
  {
    var r := ls + [l];
    forall a, b | 0 <= a < b < |r| ensures LessonKey(r[a]) != LessonKey(r[b]) {
      if b == |ls| {
        assert ls[a] in ls;
      }
    }
  }

  lemma DeleteLessonKeepsWellFormed(ss: seq<Subject>, subjectId: Id, lessonId: Id)
    requires WellFormed(ss)
    ensures WellFormed(DeleteLesson(ss, subjectId, lessonId))
  {
    var r := DeleteLesson(ss, subjectId, lessonId);
    forall i | 0 <= i < |r| ensures LessonsWellFormed(r[i].lessons) {
      if ss[i].id == subjectId {
        var ls := ss[i].lessons;
        WithoutKeepsDistinct(ls, LessonKey, lessonId);
        forall j | 0 <= j < |r[i].lessons| ensures DistinctKeys(r[i].lessons[j].videos, VideoKey) {
          assert r[i].lessons[j] in ls;
        }
      }
    }
  }

  /** An edit that keeps each lesson's video ids distinct keeps the tree well formed. */
  lemma EditVideosKeepsWellFormed(ss: seq<Subject>, subjectId: Id, lessonId: Id, edit: seq<Video> -> seq<Video>)
    requires WellFormed(ss)
    requires forall s, l :: s in ss && s.id == subjectId && l in s.lessons && l.id == lessonId ==>
      DistinctKeys(edit(l.videos), VideoKey)
    ensures WellFormed(EditVideos(ss, subjectId, lessonId, edit))
  {
    var r := EditVideos(ss, subjectId, lessonId, edit);
    forall i | 0 <= i < |r| ensures LessonsWellFormed(r[i].lessons) {
      assert ss[i] in ss;
      forall a, b | 0 <= a < b < |r[i].lessons| ensures LessonKey(r[i].lessons[a]) != LessonKey(r[i].lessons[b]) {
        assert LessonKey(ss[i].lessons[a]) != LessonKey(ss[i].lessons[b]);
      }
      forall j | 0 <= j < |r[i].lessons| ensures DistinctKeys(r[i].lessons[j].videos, VideoKey) {
        assert ss[i].lessons[j] in ss[i].lessons;
      }
    }
  }

  lemma AddVideoKeepsWellFormed(ss: seq<Subject>, subjectId: Id, lessonId: Id, url: string,
                                net: string -> YouTube.Reply, newId: Id)
    requires WellFormed(ss)
    requires forall s, l, w :: s in ss && s.id == subjectId && l in s.lessons && l.id == lessonId && w in l.videos ==> w.id != newId
    ensures AddVideo(ss, subjectId, lessonId, url, net, newId).Success? ==>
      WellFormed(AddVideo(ss, subjectId, lessonId, url, net, newId).value)
  {
    if !IsBlank(url) && YouTube.FetchVideoDetails(url, net).Success? {
      var v := NewVideo(newId, url, YouTube.FetchVideoDetails(url, net).value);
      forall s, l | s in ss && s.id == subjectId && l in s.lessons && l.id == lessonId
        ensures DistinctKeys(l.videos + [v], VideoKey)
      {
        forall a, b | 0 <= a < b < |l.videos| + 1 ensures VideoKey((l.videos + [v])[a]) != VideoKey((l.videos + [v])[b]) {
          if b == |l.videos| {
            assert l.videos[a] in l.videos;
          } else {
            assert VideoKey(l.videos[a]) != VideoKey(l.videos[b]);
          }
        }
      }
      EditVideosKeepsWellFormed(ss, subjectId, lessonId, vs => vs + [v]);
    }
  }

  lemma DeleteVideoKeepsWellFormed(ss: seq<Subject>, subjectId: Id, lessonId: Id, videoId: Id)
    requires WellFormed(ss)
    ensures WellFormed(DeleteVideo(ss, subjectId, lessonId, videoId))
  {
    forall s, l | s in ss && s.id == subjectId && l in s.lessons && l.id == lessonId
      ensures DistinctKeys(Without(l.videos, VideoKey, videoId), VideoKey)
    {
      var i :| 0 <= i < |ss| && ss[i] == s;
      var j :| 0 <= j < |s.lessons| && s.lessons[j] == l;
      WithoutKeepsDistinct(l.videos, VideoKey, videoId);
    }
    EditVideosKeepsWellFormed(ss, subjectId, lessonId, vs => Without(vs, VideoKey, videoId));
  }

  lemma ToggleKeepsWellFormed(ss: seq<Subject>, subjectId: Id, lessonId: Id, videoId: Id)
    requires WellFormed(ss)
    ensures WellFormed(ToggleVideoWatched(ss, subjectId, lessonId, videoId))
  {
    forall s, l | s in ss && s.id == subjectId && l in s.lessons && l.id == lessonId
      ensures DistinctKeys(FlipWatched(l.videos, videoId), VideoKey)
    {
      var i :| 0 <= i < |ss| && ss[i] == s;
      var j :| 0 <= j < |s.lessons| && s.lessons[j] == l;
      assert DistinctKeys(l.videos, VideoKey);
    }
    EditVideosKeepsWellFormed(ss, subjectId, lessonId, vs => FlipWatched(vs, videoId));
  }

  /** Every surviving video has the id given for its URL. */
  lemma SurvivorIdsFromIds(urls: seq<string>, net: string -> YouTube.Reply, ids: seq<Id>)
    requires |ids| == |urls|
    ensures forall v :: v in Survivors(FetchEach(urls, net, ids)) ==> v.id in ids
  {
    var rs := FetchEach(urls, net, ids);
    forall v | v in Survivors(rs) ensures v.id in ids {
      var k :| 0 <= k < |rs| && rs[k] == Some(v);
    }
  }

  /** With distinct ids for the URLs, the surviving videos have distinct ids, all taken from `ids`. */
  lemma {:induction false} SurvivorsDistinct(urls: seq<string>, net: string -> YouTube.Reply, ids: seq<Id>)
    requires |ids| == |urls|
    requires forall a, b :: 0 <= a < b < |ids| ==> ids[a] != ids[b]
    ensures DistinctKeys(Survivors(FetchEach(urls, net, ids)), VideoKey)
    ensures forall v :: v in Survivors(FetchEach(urls, net, ids)) ==> v.id in ids
  {
    var rs := FetchEach(urls, net, ids);
    SurvivorIdsFromIds(urls, net, ids);
    if urls != [] {
      assert rs[1..] == FetchEach(urls[1..], net, ids[1..]);
      SurvivorsDistinct(urls[1..], net, ids[1..]);
      var rest := Survivors(rs[1..]);
      if rs[0].Some? {
        assert Survivors(rs) == [rs[0].value] + rest;
        assert rs[0].value.id == ids[0];
        forall b | 0 <= b < |rest| ensures VideoKey(rs[0].value) != VideoKey(rest[b]) {
          assert rest[b] in rest;
          var k :| 0 <= k < |ids[1..]| && ids[1..][k] == rest[b].id;
          assert ids[k + 1] == rest[b].id;
        }
        AppendKeepsDistinct([rs[0].value], rest, VideoKey);
      } else {
        assert Survivors(rs) == rest;
      }
    }
  }

  /** Merging videos with fresh, distinct ids, and a fresh id for a new lesson, keeps the lessons well formed. */
  lemma MergeKeepsWellFormed(ls: seq<Lesson>, lessonName: string, added: seq<Video>, newLessonId: Id)
    requires LessonsWellFormed(ls)
    requires DistinctKeys(added, VideoKey)
    requires forall l, w, v :: l in ls && w in l.videos && v in added ==> w.id != v.id
    requires forall l :: l in ls ==> l.id != newLessonId
    ensures LessonsWellFormed(MergeLessons(ls, lessonName, added, newLessonId))
  {
    var r := MergeLessons(ls, lessonName, added, newLessonId);
    match FindLessonNamed(ls, lessonName)
    case Some(j) =>
      forall k | 0 <= k < |ls| ensures DistinctKeys(r[k].videos, VideoKey) {
        assert ls[k] in ls;
        if ls[k].id == ls[j].id {
          forall a, b | 0 <= a < |ls[k].videos| && 0 <= b < |added|
            ensures VideoKey(ls[k].videos[a]) != VideoKey(added[b])
          {
            assert ls[k].videos[a] in ls[k].videos && added[b] in added;
          }
          AppendKeepsDistinct(ls[k].videos, added, VideoKey);
        }
      }
      forall a, b | 0 <= a < b < |r| ensures LessonKey(r[a]) != LessonKey(r[b]) {
        assert LessonKey(ls[a]) != LessonKey(ls[b]);
      }
    case None =>
      forall a | 0 <= a < |ls| ensures LessonKey(ls[a]) != LessonKey(Lesson(newLessonId, lessonName, added)) {
        assert ls[a] in ls;
      }
      AppendKeepsDistinct(ls, [Lesson(newLessonId, lessonName, added)], LessonKey);
  }

  /** Bulk add with fresh, distinct video ids and a fresh lesson id keeps the tree well formed. */
  lemma AddBulkKeepsWellFormed(ss: seq<Subject>, subjectId: Id, lessonName: string, urls: seq<string>,
                               net: string -> YouTube.Reply, videoIds: seq<Id>, newLessonId: Id)
    requires WellFormed(ss)
    requires |videoIds| == |urls|
    requires forall a, b :: 0 <= a < b < |videoIds| ==> videoIds[a] != videoIds[b]
    requires forall s, l, w :: s in ss && s.id == subjectId && l in s.lessons && w in l.videos ==> w.id !in videoIds
    requires forall s, l :: s in ss && s.id == subjectId && l in s.lessons ==> l.id != newLessonId
    ensures var r := AddBulkVideos(ss, subjectId, lessonName, urls, net, videoIds, newLessonId);
      r.Success? ==> WellFormed(r.value.0)
  {
    var r := AddBulkVideos(ss, subjectId, lessonName, urls, net, videoIds, newLessonId);
    if r.Success? {
      var added := Survivors(FetchEach(urls, net, videoIds));
      SurvivorsDistinct(urls, net, videoIds);
      var t := r.value.0;
      forall i | 0 <= i < |t| ensures LessonsWellFormed(t[i].lessons) {
        if ss[i].id == subjectId {
          assert ss[i] in ss;
          MergeKeepsWellFormed(ss[i].lessons, lessonName, added, newLessonId);
        }
      }
      forall a, b | 0 <= a < b < |t| ensures SubjectKey(t[a]) != SubjectKey(t[b]) {
        assert SubjectKey(ss[a]) != SubjectKey(ss[b]);
      }
    }
  }
}

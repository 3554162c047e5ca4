/**
 * The `useDataManager` hook as an object: its one piece of state, the
 * `subjects` array, is a field, and every operation replaces it with the
 * value the matching `Catalog` function computes from the state before the
 * call. An operation that throws in the source returns a `Failure` here and
 * leaves the state as it was, as `setSubjects` is never reached on that path.
 * Fresh ids (`crypto.randomUUID()`) and the reply of the video lookup service
 * are parameters.
 */
module DataManager {
  import opened Wrappers
  import opened Types
  import YouTube
  import Catalog

  class LibraryStore {
    /** The tree of subjects, lessons and videos. */
    var subjects: seq<Subject>

    /** The hook starts from the saved tree (or `[]` when there is none). */
    constructor (initial: seq<Subject>)
      ensures subjects == initial
    {
      subjects := initial;
    }

    /** `addSubject(name)`; keeps ids unique when the new id is fresh. */
    method AddSubject(name: string, newId: Id)
      modifies this
      ensures subjects == Catalog.AddSubject(old(subjects), name, newId)
      ensures Catalog.WellFormed(old(subjects)) && (forall s :: s in old(subjects) ==> s.id != newId) ==>
        Catalog.WellFormed(subjects)
    {
      if Catalog.WellFormed(subjects) && (forall s :: s in subjects ==> s.id != newId) {
        Catalog.AddSubjectKeepsWellFormed(subjects, name, newId);
      }
      subjects := Catalog.AddSubject(subjects, name, newId);
    }

    /** `deleteSubject(id)`; keeps ids unique. */
    method DeleteSubject(id: Id)
      modifies this
      ensures subjects == Catalog.DeleteSubject(old(subjects), id)
      ensures Catalog.WellFormed(old(subjects)) ==> Catalog.WellFormed(subjects)
    {
      if Catalog.WellFormed(subjects) {
        Catalog.DeleteSubjectKeepsWellFormed(subjects, id);
      }
      subjects := Catalog.DeleteSubject(subjects, id);
    }

    /** `addLesson(subjectId, name)`; keeps ids unique when the new id is fresh in that subject. */
    method AddLesson(subjectId: Id, name: string, newId: Id)
      modifies this
      ensures subjects == Catalog.AddLesson(old(subjects), subjectId, name, newId)
      ensures (Catalog.WellFormed(old(subjects)) &&
               forall s, l :: s in old(subjects) && s.id == subjectId && l in s.lessons ==> l.id != newId)
        ==> Catalog.WellFormed(subjects)
    {
      if Catalog.WellFormed(subjects) &&
        (forall s, l :: s in subjects && s.id == subjectId && l in s.lessons ==> l.id != newId)
      {
        Catalog.AddLessonKeepsWellFormed(subjects, subjectId, name, newId);
      }
      subjects := Catalog.AddLesson(subjects, subjectId, name, newId);
    }

    /** `deleteLesson(subjectId, lessonId)`; keeps ids unique. */
    method DeleteLesson(subjectId: Id, lessonId: Id)
      modifies this
      ensures subjects == Catalog.DeleteLesson(old(subjects), subjectId, lessonId)
      ensures Catalog.WellFormed(old(subjects)) ==> Catalog.WellFormed(subjects)
    {
      if Catalog.WellFormed(subjects) {
        Catalog.DeleteLessonKeepsWellFormed(subjects, subjectId, lessonId);
      }
      subjects := Catalog.DeleteLesson(subjects, subjectId, lessonId);
    }

    /**
     * `addVideo(subjectId, lessonId, url)`: on success the state is the new
     * tree; on failure (blank URL, failed lookup) the state is unchanged.
     */
    method AddVideo(subjectId: Id, lessonId: Id, url: string, net: string -> YouTube.Reply, newId: Id)
      returns (r: Result<(), Catalog.StoreError>)
      modifies this
      ensures var f := Catalog.AddVideo(old(subjects), subjectId, lessonId, url, net, newId);
        && (f.Success? ==> r == Success(()) && subjects == f.value)
        && (f.Failure? ==> r == Failure(f.error) && subjects == old(subjects))
      ensures (Catalog.WellFormed(old(subjects)) &&
               forall s, l, w :: s in old(subjects) && s.id == subjectId && l in s.lessons && l.id == lessonId && w in l.videos ==> w.id != newId)
        ==> Catalog.WellFormed(subjects)
    {
      var f := Catalog.AddVideo(subjects, subjectId, lessonId, url, net, newId);
      if Catalog.WellFormed(subjects) &&
        (forall s, l, w :: s in subjects && s.id == subjectId && l in s.lessons && l.id == lessonId && w in l.videos ==> w.id != newId)
      {
        Catalog.AddVideoKeepsWellFormed(subjects, subjectId, lessonId, url, net, newId);
      }
      match f
      case Success(t) =>
        subjects := t;
        r := Success(());
      case Failure(e) =>
        r := Failure(e);
    }

    /**
     * `addBulkVideos(subjectId, lessonName, urls)`: on success the state is
     * the merged tree and the result is the number of videos added; when no
     * URL could be looked up it fails and the state is unchanged.
     */
    method AddBulkVideos(subjectId: Id, lessonName: string, urls: seq<string>, net: string -> YouTube.Reply,
                         videoIds: seq<Id>, newLessonId: Id)
      returns (r: Result<nat, Catalog.StoreError>)
      requires |videoIds| == |urls|
      modifies this
      ensures var f := Catalog.AddBulkVideos(old(subjects), subjectId, lessonName, urls, net, videoIds, newLessonId);
        && (f.Success? ==> r == Success(f.value.1) && subjects == f.value.0)
        && (f.Failure? ==> r == Failure(f.error) && subjects == old(subjects))
      ensures (Catalog.WellFormed(old(subjects)) &&
               (forall a, b :: 0 <= a < b < |videoIds| ==> videoIds[a] != videoIds[b]) &&
               (forall s, l, w :: s in old(subjects) && s.id == subjectId && l in s.lessons && w in l.videos ==> w.id !in videoIds) &&
               (forall s, l :: s in old(subjects) && s.id == subjectId && l in s.lessons ==> l.id != newLessonId))
        ==> Catalog.WellFormed(subjects)
    {
      var f := Catalog.AddBulkVideos(subjects, subjectId, lessonName, urls, net, videoIds, newLessonId);
      if Catalog.WellFormed(subjects) &&
        (forall a, b :: 0 <= a < b < |videoIds| ==> videoIds[a] != videoIds[b]) &&
        (forall s, l, w :: s in subjects && s.id == subjectId && l in s.lessons && w in l.videos ==> w.id !in videoIds) &&
        (forall s, l :: s in subjects && s.id == subjectId && l in s.lessons ==> l.id != newLessonId)
      {
        Catalog.AddBulkKeepsWellFormed(subjects, subjectId, lessonName, urls, net, videoIds, newLessonId);
      }
      match f
      case Success(p) =>
        subjects := p.0;
        r := Success(p.1);
      case Failure(e) =>
        r := Failure(e);
    }

    /** `deleteVideo(subjectId, lessonId, videoId)`; keeps ids unique. */
    method DeleteVideo(subjectId: Id, lessonId: Id, videoId: Id)
      modifies this
      ensures subjects == Catalog.DeleteVideo(old(subjects), subjectId, lessonId, videoId)
      ensures Catalog.WellFormed(old(subjects)) ==> Catalog.WellFormed(subjects)
    {
      if Catalog.WellFormed(subjects) {
        Catalog.DeleteVideoKeepsWellFormed(subjects, subjectId, lessonId, videoId);
      }
      subjects := Catalog.DeleteVideo(subjects, subjectId, lessonId, videoId);
    }

    /** `toggleVideoWatched(subjectId, lessonId, videoId)`; keeps ids unique. */
    method ToggleVideoWatched(subjectId: Id, lessonId: Id, videoId: Id)
      modifies this
      ensures subjects == Catalog.ToggleVideoWatched(old(subjects), subjectId, lessonId, videoId)
      ensures Catalog.WellFormed(old(subjects)) ==> Catalog.WellFormed(subjects)
    {
      if Catalog.WellFormed(subjects) {
        Catalog.ToggleKeepsWellFormed(subjects, subjectId, lessonId, videoId);
      }
      subjects := Catalog.ToggleVideoWatched(subjects, subjectId, lessonId, videoId);
    }
  }
}

/**
 * What the main screen shows (App.tsx): the selection of a subject and a
 * lesson, what happens to that selection when the selected subject or lesson
 * is deleted, and the video listing, which is the selected lesson's videos
 * when the search box is empty and otherwise every video in the library whose
 * title, lesson name or subject name contains the lower-cased search term.
 */
module Browse {
  import opened Wrappers
  import opened Text
  import opened Types
  import opened Lists
  import Catalog
  import DataManager

  // ---------------------------------------------------------------------------
  // Search

  /** A video together with the names and ids of the lesson and subject holding it. */
  datatype Hit = Hit(video: Video, subjectName: string, lessonName: string, subjectId: Id, lessonId: Id)

  function HitOf(s: Subject, l: Lesson, v: Video): Hit {
    Hit(v, s.name, l.name, s.id, l.id)
  }

  function HitSubject(h: Hit): Id { h.subjectId }

  /** The hits of the videos `vs` of lesson `l` in subject `s`, in order. */
  function VideoHits(s: Subject, l: Lesson, vs: seq<Video>): (r: seq<Hit>)
    ensures |r| == |vs|
    ensures forall k :: 0 <= k < |vs| ==> r[k] == HitOf(s, l, vs[k])
  {
    seq(|vs|, k requires 0 <= k < |vs| => HitOf(s, l, vs[k]))
  }

  /** The hits of every video of the lessons `ls` of subject `s`, lesson by lesson. */
  function LessonHits(s: Subject, ls: seq<Lesson>): (r: seq<Hit>)
    ensures forall h :: h in r ==> h.subjectId == s.id && h.subjectName == s.name
  {
    if ls == [] then []
    else LessonHits(s, ls[..|ls| - 1]) + VideoHits(s, ls[|ls| - 1], ls[|ls| - 1].videos)
  }

  /** The hits of every video in the library, subject by subject, lesson by lesson. */
  function AllHits(ss: seq<Subject>): (r: seq<Hit>)
    ensures forall h :: h in r ==> exists s :: s in ss && h.subjectId == s.id && h.subjectName == s.name
  {
    if ss == [] then []
    else AllHits(ss[..|ss| - 1]) + LessonHits(ss[|ss| - 1], ss[|ss| - 1].lessons)
  }

  /** `h` describes a video of the library, with the lesson and subject that hold it. */
  ghost predicate Listed(ss: seq<Subject>, h: Hit) {
    exists s, l, v :: s in ss && l in s.lessons && v in l.videos && h == HitOf(s, l, v)
  }

  /**
   * The three nested `forEach` loops that push one hit per video into
   * `allVideos`: the result is every video of the library, in tree order.
   */
  method CollectVideos(ss: seq<Subject>) returns (all: seq<Hit>)
    ensures all == AllHits(ss)
  {
    all := [];
    var i := 0;
    while i < |ss|
      invariant 0 <= i <= |ss|
      invariant all == AllHits(ss[..i])
    {
      var s := ss[i];
      var j := 0;
      while j < |s.lessons|
        invariant 0 <= j <= |s.lessons|
        invariant all == AllHits(ss[..i]) + LessonHits(s, s.lessons[..j])
      {
        var l := s.lessons[j];
        var k := 0;
        while k < |l.videos|
          invariant 0 <= k <= |l.videos|
          invariant all == AllHits(ss[..i]) + LessonHits(s, s.lessons[..j]) + VideoHits(s, l, l.videos[..k])
        {
          assert VideoHits(s, l, l.videos[..k + 1]) == VideoHits(s, l, l.videos[..k]) + [HitOf(s, l, l.videos[k])];
          all := all + [HitOf(s, l, l.videos[k])];
          k := k + 1;
        }
        assert l.videos[..k] == l.videos;
        assert s.lessons[..j + 1][..j] == s.lessons[..j];
        j := j + 1;
      }
      assert s.lessons[..j] == s.lessons;
      assert ss[..i + 1][..i] == ss[..i];
      i := i + 1;
    }
    assert ss[..i] == ss;
  }

  /** Every hit of a subject's lessons is a video of one of those lessons. */
  lemma {:induction false} LessonHitsMembers(s: Subject, ls: seq<Lesson>, h: Hit)
    ensures h in LessonHits(s, ls) <==> exists l, v :: l in ls && v in l.videos && h == HitOf(s, l, v)
  {
    if ls != [] {
      var init, last := ls[..|ls| - 1], ls[|ls| - 1];
      LessonHitsMembers(s, init, h);
      if h in VideoHits(s, last, last.videos) {
        var k :| 0 <= k < |last.videos| && VideoHits(s, last, last.videos)[k] == h;
        assert last in ls && last.videos[k] in last.videos;
      }
      if exists l, v :: l in ls && v in l.videos && h == HitOf(s, l, v) {
        var l, v :| l in ls && v in l.videos && h == HitOf(s, l, v);
        if l != last {
          var a :| 0 <= a < |ls| && ls[a] == l;
          assert init[a] == l;
        } else {
          var k :| 0 <= k < |last.videos| && last.videos[k] == v;
          assert VideoHits(s, last, last.videos)[k] == h;
        }
      }
    }
  }

  /** The collected hits are exactly the videos of the library, each with its own lesson and subject. */
  lemma {:induction false} AllHitsMembers(ss: seq<Subject>, h: Hit)
    ensures h in AllHits(ss) <==> Listed(ss, h)
  {
    if ss != [] {
      var init, last := ss[..|ss| - 1], ss[|ss| - 1];
      AllHitsMembers(init, h);
      LessonHitsMembers(last, last.lessons, h);
      if Listed(ss, h) {
        var s, l, v :| s in ss && l in s.lessons && v in l.videos && h == HitOf(s, l, v);
        if s != last {
          var a :| 0 <= a < |ss| && ss[a] == s;
          assert init[a] == s;
        }
      }
    }
  }

  /** The listing keeps the tree order: the hits of two runs of subjects concatenate. */
  lemma {:induction false} AllHitsAppend(ss: seq<Subject>, ts: seq<Subject>)
    ensures AllHits(ss + ts) == AllHits(ss) + AllHits(ts)
  {
    if ts == [] {
      assert ss + ts == ss;
    } else {
      var init, last := ts[..|ts| - 1], ts[|ts| - 1];
      var zs := ss + ts;
      assert zs[..|zs| - 1] == ss + init && zs[|zs| - 1] == last;
      var lh := LessonHits(last, last.lessons);
      calc {
        AllHits(zs);
        AllHits(ss + init) + lh;
        { AllHitsAppend(ss, init); }
        (AllHits(ss) + AllHits(init)) + lh;
        AllHits(ss) + (AllHits(init) + lh);
        AllHits(ss) + AllHits(ts);
      }
    }
  }

  /** Filtering one subject out of a one-subject list filters its hits by subject id. */
  lemma OneSubjectHits(s: Subject, id: Id)
    ensures AllHits(Without([s], SubjectKey, id)) == Without(LessonHits(s, s.lessons), HitSubject, id)
  {
    var lh := LessonHits(s, s.lessons);
    assert [s][..0] == [];
    if s.id == id {
      assert forall h :: h in lh ==> HitSubject(h) == id;
      assert Without([s], SubjectKey, id) == [];
      WithoutAll(lh, HitSubject, id);
    } else {
      assert forall h :: h in lh ==> HitSubject(h) != id;
      assert Without([s], SubjectKey, id) == [s];
    }
  }

  /** Deleting a subject removes from the library listing exactly the videos of that subject. */
  lemma {:induction false} DeleteSubjectRemovesItsHits(ss: seq<Subject>, id: Id)
    ensures AllHits(Catalog.DeleteSubject(ss, id)) == Without(AllHits(ss), HitSubject, id)
  {
    if ss != [] {
      var init, last := ss[..|ss| - 1], ss[|ss| - 1];
      assert ss == init + [last];
      var lh := LessonHits(last, last.lessons);
      calc {
        AllHits(Catalog.DeleteSubject(ss, id));
        { WithoutAppend(init, [last], SubjectKey, id); }
        AllHits(Without(init, SubjectKey, id) + Without([last], SubjectKey, id));
        { AllHitsAppend(Without(init, SubjectKey, id), Without([last], SubjectKey, id)); }
        AllHits(Catalog.DeleteSubject(init, id)) + AllHits(Without([last], SubjectKey, id));
        { DeleteSubjectRemovesItsHits(init, id); OneSubjectHits(last, id); }
        Without(AllHits(init), HitSubject, id) + Without(lh, HitSubject, id);
        { WithoutAppend(AllHits(init), lh, HitSubject, id); }
        Without(AllHits(init) + lh, HitSubject, id);
      }
    }
  }

  /**
   * A hit matches when its title, lesson name or subject name, lower-cased,
   * contains the lowered term: every hit matches the empty term, and a term
   * longer than all three never matches.
   */
  predicate MatchesTerm(h: Hit, lowered: string): (r: bool)
    ensures lowered == [] ==> r
    ensures r ==> |lowered| <= |h.video.title| || |lowered| <= |h.lessonName| || |lowered| <= |h.subjectName|
  {
    || Contains(Lower(h.video.title), lowered)
    || Contains(Lower(h.lessonName), lowered)
    || Contains(Lower(h.subjectName), lowered)
  }

  /** The search filter over the collected hits, keeping their order. */
  function MatchingHits(hs: seq<Hit>, lowered: string): (r: seq<Hit>)
    ensures |r| <= |hs|
    ensures forall h :: h in r <==> h in hs && MatchesTerm(h, lowered)
  {
    if hs == [] then []
    else if MatchesTerm(hs[0], lowered) then [hs[0]] + MatchingHits(hs[1..], lowered)
    else MatchingHits(hs[1..], lowered)
  }

  /** The search keeps the listing order: filtering a concatenation concatenates the filtered parts. */
  lemma {:induction false} MatchingHitsAppend(hs: seq<Hit>, gs: seq<Hit>, lowered: string)
    ensures MatchingHits(hs + gs, lowered) == MatchingHits(hs, lowered) + MatchingHits(gs, lowered)
  {
    if hs == [] {
      assert hs + gs == gs;
    } else {
      var head := if MatchesTerm(hs[0], lowered) then [hs[0]] else [];
      assert (hs + gs)[0] == hs[0];
      assert (hs + gs)[1..] == hs[1..] + gs;
      calc {
        MatchingHits(hs + gs, lowered);
        { MatchingHitsCons(hs + gs, lowered); }
        head + MatchingHits(hs[1..] + gs, lowered);
        { MatchingHitsAppend(hs[1..], gs, lowered); }
        head + (MatchingHits(hs[1..], lowered) + MatchingHits(gs, lowered));
        (head + MatchingHits(hs[1..], lowered)) + MatchingHits(gs, lowered);
        { MatchingHitsCons(hs, lowered); }
        MatchingHits(hs, lowered) + MatchingHits(gs, lowered);
      }
    }
  }

  /** One step of the search filter: the first hit is kept exactly when it matches. */
  lemma MatchingHitsCons(hs: seq<Hit>, lowered: string)
    requires hs != []
    ensures MatchingHits(hs, lowered) == (if MatchesTerm(hs[0], lowered) then [hs[0]] else []) + MatchingHits(hs[1..], lowered)
  {
  }

  // ---------------------------------------------------------------------------
  // Selection

  /** `selectedSubjectId` and `selectedLessonId`; `None` stands for `null`. */
  datatype Selection = Selection(subjectId: Option<Id>, lessonId: Option<Id>)

  /** The selected subject: the first subject whose id is the selected one. */
  function SelectedSubject(ss: seq<Subject>, sel: Selection): (r: Option<Subject>)
    ensures r.Some? <==> sel.subjectId.Some? && exists s :: s in ss && s.id == sel.subjectId.value
    ensures r.Some? ==> r.value in ss && Some(r.value.id) == sel.subjectId
    ensures r.Some? ==> exists i :: FirstWithId(ss, SubjectKey, sel.subjectId.value, i) && ss[i] == r.value
  {
    match sel.subjectId
    case None => None
    case Some(id) => FindById(ss, SubjectKey, id)
  }

  /** The selected lesson: the first lesson of the selected subject whose id is the selected one. */
  function SelectedLesson(ss: seq<Subject>, sel: Selection): (r: Option<Lesson>)
    ensures r.Some? <==> (SelectedSubject(ss, sel).Some? && sel.lessonId.Some? &&
                          exists l :: l in SelectedSubject(ss, sel).value.lessons && l.id == sel.lessonId.value)
    ensures r.Some? ==> r.value in SelectedSubject(ss, sel).value.lessons && Some(r.value.id) == sel.lessonId
    ensures r.Some? ==>
      var ls := SelectedSubject(ss, sel).value.lessons;
      exists i :: FirstWithId(ls, LessonKey, sel.lessonId.value, i) && ls[i] == r.value
  {
    match SelectedSubject(ss, sel)
    case None => None
    case Some(s) =>
      match sel.lessonId
      case None => None
      case Some(lid) => FindById(s.lessons, LessonKey, lid)
  }

  /** What the video area lists. */
  datatype Listing = LessonVideos(videos: seq<Video>) | SearchResults(hits: seq<Hit>)

  /**
   * `filteredVideos`: with an empty search term, the videos of the selected
   * lesson (none when no lesson is selected); otherwise the hits of the whole
   * library that match the lower-cased term, in tree order.
   */
  method FilteredVideos(ss: seq<Subject>, sel: Selection, searchTerm: string) returns (r: Listing)
    ensures searchTerm == "" ==>
      r == LessonVideos(if SelectedLesson(ss, sel).Some? then SelectedLesson(ss, sel).value.videos else [])
    ensures searchTerm != "" ==> r == SearchResults(MatchingHits(AllHits(ss), Lower(searchTerm)))
    ensures searchTerm != "" ==>
      forall h :: h in r.hits <==> Listed(ss, h) && MatchesTerm(h, Lower(searchTerm))
  {
    if searchTerm == "" {
      match SelectedLesson(ss, sel)
      case Some(l) => r := LessonVideos(l.videos);
      case None => r := LessonVideos([]);
    } else {
      var lowered := Lower(searchTerm);
      var all := CollectVideos(ss);
      r := SearchResults(MatchingHits(all, lowered));
      forall h ensures h in r.hits <==> Listed(ss, h) && MatchesTerm(h, lowered) {
        AllHitsMembers(ss, h);
      }
    }
  }

  /**
   * `handleSelectSubject(subjectId)`: select the subject and its first
   * lesson, or no lesson when the subject is unknown or has none. The subject
   * looked at is the first one with that id.
   */
  function SelectSubject(ss: seq<Subject>, subjectId: Id): (r: Selection)
    ensures r.subjectId == Some(subjectId)
    ensures forall i :: FirstWithId(ss, SubjectKey, subjectId, i) ==>
      r.lessonId == if |ss[i].lessons| > 0 then Some(ss[i].lessons[0].id) else None
    ensures (forall s :: s in ss ==> s.id != subjectId || |s.lessons| == 0) ==> r.lessonId == None
    ensures r.lessonId.Some? ==> exists s :: s in ss && s.id == subjectId && |s.lessons| > 0 && s.lessons[0].id == r.lessonId.value
  {
    match FindById(ss, SubjectKey, subjectId)
    case Some(s) => Selection(Some(subjectId), if |s.lessons| > 0 then Some(s.lessons[0].id) else None)
    case None => Selection(Some(subjectId), None)
  }

  /** With unique ids, selecting a subject shows that subject and its first lesson, if it has one. */
  lemma SelectSubjectShowsFirstLesson(ss: seq<Subject>, i: nat)
    requires Catalog.WellFormed(ss)
    requires i < |ss|
    ensures var sel := SelectSubject(ss, ss[i].id);
      && SelectedSubject(ss, sel) == Some(ss[i])
      && SelectedLesson(ss, sel) == if |ss[i].lessons| == 0 then None else Some(ss[i].lessons[0])
  {
    FindByIdDistinct(ss, SubjectKey, i);
    if |ss[i].lessons| > 0 {
      FindByIdDistinct(ss[i].lessons, LessonKey, 0);
    }
  }

  /** `handleDeleteSubject`, after `deleteSubject`: deleting the selected subject clears the selection. */
  function AfterSubjectDeleted(sel: Selection, subjectId: Id): (r: Selection)
    ensures r.subjectId != Some(subjectId)
    ensures sel.subjectId != Some(subjectId) ==> r == sel
    ensures sel.subjectId == Some(subjectId) ==> r == Selection(None, None)
  {
    if sel.subjectId == Some(subjectId) then Selection(None, None) else sel
  }

  /** Deleting a subject clears the view of that subject and leaves the view of any other one as it was. */
  lemma DeleteSubjectKeepsOtherView(ss: seq<Subject>, sel: Selection, subjectId: Id)
    ensures var t := Catalog.DeleteSubject(ss, subjectId);
      var after := AfterSubjectDeleted(sel, subjectId);
      && (sel.subjectId == Some(subjectId) ==> SelectedSubject(t, after) == None && SelectedLesson(t, after) == None)
      && (sel.subjectId != Some(subjectId) ==>
            SelectedSubject(t, after) == SelectedSubject(ss, sel) && SelectedLesson(t, after) == SelectedLesson(ss, sel))
  {
    if sel.subjectId.Some? && sel.subjectId != Some(subjectId) {
      FindByIdWithout(ss, SubjectKey, subjectId, sel.subjectId.value);
    }
  }

  /**
   * The lesson `handleDeleteLesson` selects after deleting the selected
   * lesson, computed on the subject as it was before the deletion: the
   * second lesson when the first goes, otherwise the one before the deleted
   * one. An unknown lesson gives index -1, hence position -2, which holds
   * nothing; an unknown subject gives nothing either.
   */
  function NextLesson(selected: Option<Subject>, deleted: Id): (r: Option<Id>)
    ensures r.Some? <==> (selected.Some? && IndexOfId(selected.value.lessons, LessonKey, deleted) >= 0 &&
                          |selected.value.lessons| >= 2)
    ensures r.Some? ==>
      var ls := selected.value.lessons;
      var i := IndexOfId(ls, LessonKey, deleted);
      r.value == ls[if i == 0 then 1 else i - 1].id
  {
    match selected
    case None => None
    case Some(s) =>
      var i := IndexOfId(s.lessons, LessonKey, deleted);
      var k := if i == 0 then 1 else i - 1;
      if 0 <= k < |s.lessons| then Some(s.lessons[k].id) else None
  }

  /** `handleDeleteLesson`, after `deleteLesson`: deleting the selected lesson moves the selection to a neighbour. */
  function AfterLessonDeleted(ss: seq<Subject>, sel: Selection, lessonId: Id): (r: Selection)
    ensures r.subjectId == sel.subjectId
    ensures sel.lessonId != Some(lessonId) ==> r == sel
    ensures sel.lessonId == Some(lessonId) ==> r.lessonId == NextLesson(SelectedSubject(ss, sel), lessonId)
  {
    if sel.lessonId == Some(lessonId) then sel.(lessonId := NextLesson(SelectedSubject(ss, sel), lessonId))
    else sel
  }

  /**
   * With unique ids, deleting the selected lesson leaves a lesson selected
   * exactly when the selected subject had that lesson and at least one more,
   * and the newly selected lesson is still there after the deletion.
   */
  lemma DeleteLessonShowsNeighbour(ss: seq<Subject>, sel: Selection, lessonId: Id)
    requires Catalog.WellFormed(ss)
    requires sel.subjectId.Some? && sel.lessonId == Some(lessonId)
    ensures var t := Catalog.DeleteLesson(ss, sel.subjectId.value, lessonId);
      var after := AfterLessonDeleted(ss, sel, lessonId);
      && (after.lessonId.Some? <==> SelectedLesson(ss, sel).Some? && |SelectedSubject(ss, sel).value.lessons| >= 2)
      && (after.lessonId.Some? ==>
            && after.lessonId != Some(lessonId)
            && SelectedLesson(t, after).Some?
            && Some(SelectedLesson(t, after).value.id) == after.lessonId)
  {
    NextLessonExists(ss, sel, lessonId);
    if NextLesson(SelectedSubject(ss, sel), lessonId).Some? {
      NextLessonSurvives(ss, sel, lessonId);
    }
  }

  /** A replacement lesson exists exactly when the selected subject has the deleted lesson and another one. */
  lemma NextLessonExists(ss: seq<Subject>, sel: Selection, lessonId: Id)
    requires sel.lessonId == Some(lessonId)
    ensures NextLesson(SelectedSubject(ss, sel), lessonId).Some? <==>
      SelectedLesson(ss, sel).Some? && |SelectedSubject(ss, sel).value.lessons| >= 2
  {
    if SelectedSubject(ss, sel).Some? {
      var ls := SelectedSubject(ss, sel).value.lessons;
      assert SelectedLesson(ss, sel).Some? <==> IndexOfId(ls, LessonKey, lessonId) >= 0;
    }
  }

  /** With unique ids, the replacement lesson is found again in the subject once the lesson is deleted. */
  lemma NextLessonSurvives(ss: seq<Subject>, sel: Selection, lessonId: Id)
    requires Catalog.WellFormed(ss)
    requires sel.subjectId.Some? && sel.lessonId == Some(lessonId)
    requires NextLesson(SelectedSubject(ss, sel), lessonId).Some?
    ensures var t := Catalog.DeleteLesson(ss, sel.subjectId.value, lessonId);
      var after := sel.(lessonId := NextLesson(SelectedSubject(ss, sel), lessonId));
      && SelectedLesson(t, after).Some?
      && Some(SelectedLesson(t, after).value.id) == after.lessonId
  {
    var sid := sel.subjectId.value;
    var t := Catalog.DeleteLesson(ss, sid, lessonId);
    var after := sel.(lessonId := NextLesson(SelectedSubject(ss, sel), lessonId));
    var i0 := IndexOfId(ss, SubjectKey, sid);
    assert SelectedSubject(ss, sel) == Some(ss[i0]);
    var ls := ss[i0].lessons;
    assert Catalog.LessonsWellFormed(ls);
    var i := IndexOfId(ls, LessonKey, lessonId);
    var k := if i == 0 then 1 else i - 1;
    assert after.lessonId == Some(ls[k].id);
    assert LessonKey(ls[k]) != LessonKey(ls[i]);
    IndexOfIdSameKeys(ss, SubjectKey, t, SubjectKey, sid);
    assert SelectedSubject(t, after) == Some(t[i0]);
    assert t[i0].lessons == Without(ls, LessonKey, lessonId);
    OtherLessonSurvives(ls, lessonId, k);
  }

  /** With unique lesson ids, a lesson other than the deleted one is still found by its id after the deletion. */
  lemma OtherLessonSurvives(ls: seq<Lesson>, lessonId: Id, k: nat)
    requires Catalog.LessonsWellFormed(ls)
    requires k < |ls| && ls[k].id != lessonId
    ensures FindById(Without(ls, LessonKey, lessonId), LessonKey, ls[k].id) == Some(ls[k])
  {
    FindByIdWithout(ls, LessonKey, lessonId, ls[k].id);
    FindByIdDistinct(ls, LessonKey, k);
  }

  // ---------------------------------------------------------------------------
  // The screen's state

  /** The App component's own state next to the store it reads and updates. */
  class AppView {
    const store: DataManager.LibraryStore
    var selection: Selection
    var searchTerm: string

    /** Nothing is selected and the search box is empty. */
    constructor (store: DataManager.LibraryStore)
      ensures this.store == store
      ensures selection == Selection(None, None) && searchTerm == ""
    {
      this.store := store;
      selection := Selection(None, None);
      searchTerm := "";
    }

    /** Typing in the search box: only the term changes. */
    method SetSearchTerm(term: string)
      modifies this
      ensures searchTerm == term && selection == old(selection)
    {
      searchTerm := term;
    }

    /**
     * What the video area lists for the current state: the selected lesson's
     * videos while the search box is empty, otherwise every matching video of
     * the store's tree, in tree order.
     */
    method ShownVideos() returns (r: Listing)
      ensures searchTerm == "" ==>
        r == LessonVideos(if SelectedLesson(store.subjects, selection).Some?
                          then SelectedLesson(store.subjects, selection).value.videos else [])
      ensures searchTerm != "" ==> r == SearchResults(MatchingHits(AllHits(store.subjects), Lower(searchTerm)))
      ensures searchTerm != "" ==>
        forall h :: h in r.hits <==> Listed(store.subjects, h) && MatchesTerm(h, Lower(searchTerm))
    {
      r := FilteredVideos(store.subjects, selection, searchTerm);
    }

    /** `handleSelectSubject(subjectId)` */
    method HandleSelectSubject(subjectId: Id)
      modifies this
      ensures selection == SelectSubject(store.subjects, subjectId)
      ensures searchTerm == old(searchTerm)
    {
      selection := SelectSubject(store.subjects, subjectId);
    }

    /** `handleDeleteSubject(subjectId)`, with the user's answer to the confirmation as `confirmed`. */
    method HandleDeleteSubject(subjectId: Id, confirmed: bool)
      modifies this, store
      ensures confirmed ==> store.subjects == Catalog.DeleteSubject(old(store.subjects), subjectId)
      ensures confirmed ==> selection == AfterSubjectDeleted(old(selection), subjectId)
      ensures !confirmed ==> store.subjects == old(store.subjects) && selection == old(selection)
      ensures searchTerm == old(searchTerm)
    {
      if confirmed {
        store.DeleteSubject(subjectId);
        selection := AfterSubjectDeleted(selection, subjectId);
      }
    }

    /**
     * `handleDeleteLesson(lessonId)`: only with a subject selected and the
     * deletion confirmed; the replacement lesson is chosen from the subject
     * as it was before the deletion.
     */
    method HandleDeleteLesson(lessonId: Id, confirmed: bool)
      modifies this, store
      ensures old(selection).subjectId.Some? && confirmed ==>
        && store.subjects == Catalog.DeleteLesson(old(store.subjects), old(selection).subjectId.value, lessonId)
        && selection == AfterLessonDeleted(old(store.subjects), old(selection), lessonId)
      ensures !(old(selection).subjectId.Some? && confirmed) ==>
        store.subjects == old(store.subjects) && selection == old(selection)
      ensures searchTerm == old(searchTerm)
    {
      if selection.subjectId.Some? && confirmed {
        var before := store.subjects;
        store.DeleteLesson(selection.subjectId.value, lessonId);
        selection := AfterLessonDeleted(before, selection, lessonId);
      }
    }
  }
}

/** End-to-end properties that span several handlers: a purchase from
    checkout to access, a learner working through a course, and the
    consequences of the count-based completion rule. */
module Scenarios {
  import opened Common
  import opened Records
  import Purchases
  import Progress
  import Courses
  import Text

  /** Checking out and then receiving the gateway's completion event for the
      session, charged at the quoted amount, entitles a non-creator to the
      course: the stored amount is the course price, the buyer and the course
      are enrolled in each other, and the course's lectures become previews.
      Checkout alone grants nothing. */
  lemma PurchaseGrantsAccess(s: Store, u: UserId, c: CourseId, sid: string, url: string)
    requires s.HasCourse(c) && s.HasUser(s.courses[c].creator) && s.courses[c].creator != u
    requires forall i :: 0 <= i < |s.purchases| ==> s.purchases[i].paymentId != sid
    requires !Purchases.HasCompletedPurchase(s.purchases, u, c)
    ensures var co := Purchases.Checkout(s, u, c, Purchases.SessionCreated(sid, url));
      && co.status == OK
      && Purchases.CourseAccess(co.store, u, c).access == Some(Purchases.Access(false, false))
      && var item := co.request.value.item;
         var wh := Purchases.Webhook(co.store, true,
                     Purchases.GatewayEvent(Purchases.CheckoutCompletedEvent, sid, item.unitAmount * item.quantity));
         && wh.status == OK
         && Purchases.CourseAccess(wh.store, u, c).access == Some(Purchases.Access(false, true))
         && wh.store.purchases[|s.purchases|].amount == s.courses[c].price as real
         && wh.store.purchases[|s.purchases|].status == Completed
         && u in wh.store.courses[c].enrolledStudents
         && (s.HasUser(u) ==> c in wh.store.users[u].enrolledCourses)
         && forall k :: k in s.courses[c].lectures && k in s.lectures ==> wh.store.lectures[k].isPreviewFree
  {
    var co := Purchases.Checkout(s, u, c, Purchases.SessionCreated(sid, url));
    var n := |s.purchases|;
    assert co.store.purchases[n].paymentId == sid;
    assert forall i :: 0 <= i < n ==> co.store.purchases[i] == s.purchases[i];
    assert co.store.purchases[n].status == Pending;
    var item := co.request.value.item;
    var ev := Purchases.GatewayEvent(Purchases.CheckoutCompletedEvent, sid, item.unitAmount * item.quantity);
    assert Purchases.FindBySession(co.store.purchases, sid) == Some(n) by {
      assert forall j :: 0 <= j < n ==> co.store.purchases[j].paymentId != sid;
    }
    var wh := Purchases.Webhook(co.store, true, ev);
    assert wh.store.purchases[n].userId == u && wh.store.purchases[n].courseId == c;
    assert Purchases.HasCompletedPurchase(wh.store.purchases, u, c);
    assert wh.store.courses[c].creator == s.courses[c].creator;
  }

  /** The progress store after viewing `ids` one after another. */
  function ViewAll(s: Store, u: UserId, c: CourseId, ids: seq<LectureId>): Store
  {
    if |ids| == 0 then s
    else Progress.ViewLecture(ViewAll(s, u, c, ids[..|ids| - 1]), u, c, ids[|ids| - 1]).store
  }

  predicate DistinctIds(ids: seq<LectureId>)
  {
    forall i, j :: 0 <= i < j < |ids| ==> ids[i] != ids[j]
  }

  /** Views touch nothing but progress, and after at least one view the
      learner has a record for the course. */
  lemma {:induction false} ViewAllFrame(s: Store, u: UserId, c: CourseId, ids: seq<LectureId>)
    ensures var t := ViewAll(s, u, c, ids);
      && t == s.(progress := t.progress)
      && (|ids| > 0 ==> Progress.Key(u, c) in t.progress)
  {
    if |ids| > 0 {
      ViewAllFrame(s, u, c, ids[..|ids| - 1]);
    }
  }

  /** Viewing distinct lectures from scratch leaves one viewed entry per
      lecture, in viewing order. */
  lemma {:induction false} ViewAllEntries(s: Store, u: UserId, c: CourseId, ids: seq<LectureId>)
    requires Progress.Key(u, c) !in s.progress
    requires DistinctIds(ids)
    ensures var t := ViewAll(s, u, c, ids);
      Progress.Key(u, c) in t.progress <==> |ids| > 0
    ensures var t := ViewAll(s, u, c, ids);
      |ids| > 0 ==>
        && Progress.Key(u, c) in t.progress
        && t.progress[Progress.Key(u, c)].lectureProgress ==
             seq(|ids|, i requires 0 <= i < |ids| => LectureEntry(ids[i], true))
  {
    ViewAllFrame(s, u, c, ids);
    if |ids| > 0 {
      var init := ids[..|ids| - 1];
      var last := ids[|ids| - 1];
      ViewAllEntries(s, u, c, init);
      var mid := ViewAll(s, u, c, init);
      var before := Progress.RecordOrEmpty(mid, u, c).lectureProgress;
      var want := seq(|ids|, i requires 0 <= i < |ids| => LectureEntry(ids[i], true));
      assert before == want[..|init|];
      assert forall j :: 0 <= j < |before| ==> before[j].lectureId != last;
      Progress.MarkViewedFresh(before, last);
      assert want == want[..|init|] + [LectureEntry(last, true)];
    }
  }

  /** Viewing every lecture of a course once, from no progress, completes it. */
  lemma WatchingEveryLectureCompletes(s: Store, u: UserId, c: CourseId)
    requires s.HasCourse(c)
    requires Progress.Key(u, c) !in s.progress
    requires DistinctIds(s.courses[c].lectures)
    requires |s.courses[c].lectures| > 0
    ensures var t := ViewAll(s, u, c, s.courses[c].lectures);
      Progress.Key(u, c) in t.progress && t.progress[Progress.Key(u, c)].completed
  {
    var ids := s.courses[c].lectures;
    var init := ids[..|ids| - 1];
    ViewAllEntries(s, u, c, ids);
    ViewAllFrame(s, u, c, init);
    var mid := ViewAll(s, u, c, init);
    var t := Progress.ViewLecture(mid, u, c, ids[|ids| - 1]).store;
    assert t == ViewAll(s, u, c, ids);
    assert mid.courses == s.courses;
    var entries := t.progress[Progress.Key(u, c)].lectureProgress;
    Progress.AllViewedCount(entries, true);
    assert |mid.courses[c].lectures| == Progress.ViewedCount(entries);
  }

  /** A course with lectures 0 and 1 and nothing else stored. */
  function TwoLectureStore(): Store
  {
    var course := Course("Course", None, None, "Category", None, 0, None, 0, [0, 1], {}, true);
    var lecture := Lecture("Lecture", None, None, false);
    Store([], [course], map[0 := lecture, 1 := lecture], [], map[])
  }

  /** Completion counts entries rather than checking which lectures were seen:
      viewing lecture 0 and then lecture 7, which is not in the course, marks
      the two-lecture course completed although lecture 1 was never viewed. */
  lemma CompletionByCount()
    ensures var t := ViewAll(TwoLectureStore(), 0, 0, [0, 7]);
      && Progress.Key(0, 0) in t.progress
      && t.progress[Progress.Key(0, 0)].completed
      && t.courses == TwoLectureStore().courses
      && 1 in t.courses[0].lectures
      && forall e :: e in t.progress[Progress.Key(0, 0)].lectureProgress ==> e.lectureId != 1
  {
    var s := TwoLectureStore();
    assert [0, 7][..1] == [0];
    assert [0][..0] == [];
    ViewAllEntries(s, 0, 0, [0, 7]);
    ViewAllFrame(s, 0, 0, [0, 7]);
    var t := ViewAll(s, 0, 0, [0, 7]);
    var entries := t.progress[Progress.Key(0, 0)].lectureProgress;
    assert entries == [LectureEntry(0, true), LectureEntry(7, true)];
    Progress.AllViewedCount(entries, true);
  }

  /** A completed course stays completed when a lecture is added later and the
      learner views again: a view never lowers `completed`. */
  lemma CompletionSurvivesNewLecture(s: Store, u: UserId, c: CourseId, title: string, l: LectureId)
    requires Progress.Key(u, c) in s.progress && s.progress[Progress.Key(u, c)].completed
    requires !Text.Blank(Some(title))
    ensures var grown := Courses.CreateLecture(s, c, Some(title));
      && grown.status == Created
      && (s.HasCourse(c) ==> |grown.store.courses[c].lectures| == |s.courses[c].lectures| + 1)
      && var t := Progress.ViewLecture(grown.store, u, c, l).store;
         t.progress[Progress.Key(u, c)].completed
  {
    var grown := Courses.CreateLecture(s, c, Some(title));
    assert Progress.RecordOrEmpty(grown.store, u, c).completed;
  }
}

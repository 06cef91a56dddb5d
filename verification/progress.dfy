/** The lecture-progress state machine: a per-(user, course) record created
    lazily on the first lecture view, a per-lecture `viewed` flag, a `completed`
    flag that a view can only raise, and manual overrides that need an existing
    record. */
module Progress {
  import opened Common
  import opened Records

  /** What `getCourseProgress` answers besides the course itself. */
  datatype ProgressReply = ProgressReply(status: nat, progress: seq<LectureEntry>, completed: bool)

  /** `getCourseProgress`: 404 for an unknown course; an empty, incomplete
      progress when the user has no record yet (none is created: the read
      returns no store); otherwise the stored record as it is. */
  function GetProgress(s: Store, userId: UserId, courseId: CourseId): (r: ProgressReply)
    ensures r.status == NotFound <==> !s.HasCourse(courseId)
    ensures r.status == OK <==> s.HasCourse(courseId)
    ensures r.status == OK && (userId, courseId) !in s.progress ==> r.progress == [] && !r.completed
    ensures r.status == OK && (userId, courseId) in s.progress ==>
      r.progress == s.progress[(userId, courseId)].lectureProgress && r.completed == s.progress[(userId, courseId)].completed
  {
    if !s.HasCourse(courseId) then ProgressReply(NotFound, [], false)
    else if (userId, courseId) !in s.progress then ProgressReply(OK, [], false)
    else
      var rec := s.progress[(userId, courseId)];
      ProgressReply(OK, rec.lectureProgress, rec.completed)
  }

  /** `lectureProgress.findIndex(l => l.lectureId == id)`. */
  function IndexOf(entries: seq<LectureEntry>, id: LectureId): (r: Option<nat>)
    ensures r.None? <==> forall i :: 0 <= i < |entries| ==> entries[i].lectureId != id
    ensures r.Some? ==>
      && r.value < |entries| && entries[r.value].lectureId == id
      && forall j :: 0 <= j < r.value ==> entries[j].lectureId != id
  {
    if |entries| == 0 then None
    else if entries[0].lectureId == id then Some(0)
    else match IndexOf(entries[1..], id)
      case None => None
      case Some(i) => Some(i + 1)
  }

  /** No lecture has two entries. */
  predicate Distinct(entries: seq<LectureEntry>)
  {
    forall i, j :: 0 <= i < j < |entries| ==> entries[i].lectureId != entries[j].lectureId
  }

  /** The upsert of a view: the lecture's entry gets `viewed = true`, or a new
      viewed entry is appended when the lecture has none. Other entries keep
      their place and value, and no lecture gains a second entry. */
  function MarkViewed(entries: seq<LectureEntry>, id: LectureId): (r: seq<LectureEntry>)
    ensures |entries| <= |r| <= |entries| + 1
    ensures forall j :: 0 <= j < |entries| && entries[j].lectureId != id ==> r[j] == entries[j]
    ensures exists k :: 0 <= k < |r| && r[k] == LectureEntry(id, true)
    ensures |r| == |entries| + 1 <==> forall j :: 0 <= j < |entries| ==> entries[j].lectureId != id
    ensures |r| == |entries| + 1 ==> r[|entries|] == LectureEntry(id, true)
    ensures Distinct(entries) ==> Distinct(r)
  {
    match IndexOf(entries, id)
    case Some(i) =>
      var r := entries[i := entries[i].(viewed := true)];
      assert r[i] == LectureEntry(id, true);
      r
    case None =>
      var r := entries + [LectureEntry(id, true)];
      assert r[|entries|] == LectureEntry(id, true);
      r
  }

  /** Viewing a lecture that has no entry appends a viewed entry and changes nothing else. */
  lemma MarkViewedFresh(entries: seq<LectureEntry>, id: LectureId)
    requires forall j :: 0 <= j < |entries| ==> entries[j].lectureId != id
    ensures MarkViewed(entries, id) == entries + [LectureEntry(id, true)]
  {
    var r := MarkViewed(entries, id);
    assert forall j :: 0 <= j < |entries| ==> r[j] == entries[j];
  }

  /** Number of entries whose `viewed` flag is set. */
  function ViewedCount(entries: seq<LectureEntry>): (n: nat)
    ensures n <= |entries|
  {
    if |entries| == 0 then 0
    else (if entries[0].viewed then 1 else 0) + ViewedCount(entries[1..])
  }

  /** The `viewed` flags of the entries, in order. */
  function Flags(entries: seq<LectureEntry>): (r: seq<bool>)
    ensures |r| == |entries|
    ensures forall i :: 0 <= i < |entries| ==> r[i] == entries[i].viewed
  {
    seq(|entries|, i requires 0 <= i < |entries| => entries[i].viewed)
  }

  /** `filter(l => l.viewed).length` counts the `true` flags: the recursive count
      agrees with the multiset of flags. */
  lemma {:induction false} ViewedCountIsTrueFlags(entries: seq<LectureEntry>)
    ensures ViewedCount(entries) == multiset(Flags(entries))[true]
    decreases |entries|
  {
    if |entries| > 0 {
      ViewedCountIsTrueFlags(entries[1..]);
      assert Flags(entries) == [entries[0].viewed] + Flags(entries[1..]);
    }
  }

  /** The record key of a (user, course) pair. */
  function Key(userId: UserId, courseId: CourseId): (UserId, CourseId)
  {
    (userId, courseId)
  }

  /** The record a view starts from: the stored one, or a fresh empty one. */
  function RecordOrEmpty(s: Store, userId: UserId, courseId: CourseId): ProgressRecord
  {
    if Key(userId, courseId) in s.progress then s.progress[Key(userId, courseId)]
    else ProgressRecord([], false)
  }

  /** `updateLectureProgress`. The record is created when missing, the
      lecture is marked viewed, and `completed` is raised when the course exists
      and its current number of lecture references equals the number of viewed
      entries; otherwise `completed` keeps its value. Only this record changes. */
  function ViewLecture(s: Store, userId: UserId, courseId: CourseId, lectureId: LectureId): (o: Outcome)
    ensures o.status == OK
    ensures o.store == s.(progress := o.store.progress)
    ensures o.store.progress.Keys == s.progress.Keys + {Key(userId, courseId)}
    ensures forall k :: k in s.progress && k != Key(userId, courseId) ==> o.store.progress[k] == s.progress[k]
    ensures var before := RecordOrEmpty(s, userId, courseId);
      var after := o.store.progress[Key(userId, courseId)];
      && after.lectureProgress == MarkViewed(before.lectureProgress, lectureId)
      && (before.completed ==> after.completed)
      && (s.HasCourse(courseId) && |s.courses[courseId].lectures| == ViewedCount(after.lectureProgress) ==> after.completed)
      && (after.completed && !before.completed ==>
            s.HasCourse(courseId) && |s.courses[courseId].lectures| == ViewedCount(after.lectureProgress))
  {
    var rec := RecordOrEmpty(s, userId, courseId);
    var entries := MarkViewed(rec.lectureProgress, lectureId);
    var completed :=
      if s.HasCourse(courseId) && |s.courses[courseId].lectures| == ViewedCount(entries) then true
      else rec.completed;
    Outcome(OK, s.(progress := s.progress[Key(userId, courseId) := ProgressRecord(entries, completed)]))
  }

  /** Every entry's `viewed` set to `v`; the lectures and their order are kept. */
  function SetAllViewed(entries: seq<LectureEntry>, v: bool): (r: seq<LectureEntry>)
    ensures |r| == |entries|
    ensures forall i :: 0 <= i < |r| ==> r[i].lectureId == entries[i].lectureId && r[i].viewed == v
  {
    seq(|entries|, i requires 0 <= i < |entries| => LectureEntry(entries[i].lectureId, v))
  }

  /** The shared shape of `markAsCompleted` and `markAsInCompleted`: 404 and no
      change without a record; otherwise every existing entry's flag and the
      completion flag are set to `v`, and no entry is added. */
  function SetCompletion(s: Store, userId: UserId, courseId: CourseId, v: bool): (o: Outcome)
    ensures Key(userId, courseId) !in s.progress ==> o == Outcome(NotFound, s)
    ensures Key(userId, courseId) in s.progress ==> o.status == OK && o.store.progress.Keys == s.progress.Keys
    ensures Key(userId, courseId) in s.progress ==>
      var before := s.progress[Key(userId, courseId)].lectureProgress;
      var after := o.store.progress[Key(userId, courseId)];
      && o.status == OK
      && o.store == s.(progress := o.store.progress)
      && o.store.progress.Keys == s.progress.Keys
      && (forall k :: k in s.progress && k != Key(userId, courseId) ==> o.store.progress[k] == s.progress[k])
      && after.completed == v
      && |after.lectureProgress| == |before|
      && forall i :: 0 <= i < |before| ==> after.lectureProgress[i] == LectureEntry(before[i].lectureId, v)
  {
    if Key(userId, courseId) !in s.progress then Outcome(NotFound, s)
    else
      var rec := s.progress[Key(userId, courseId)];
      Outcome(OK, s.(progress := s.progress[Key(userId, courseId) := ProgressRecord(SetAllViewed(rec.lectureProgress, v), v)]))
  }

  /** `markAsCompleted`. */
  function MarkCompleted(s: Store, userId: UserId, courseId: CourseId): (o: Outcome)
    ensures Key(userId, courseId) !in s.progress <==> o.status == NotFound
    ensures Key(userId, courseId) in s.progress <==> o.status == OK
    ensures o.status == NotFound ==> o.store == s
    ensures o.status == OK ==>
      && o.store == s.(progress := o.store.progress)
      && o.store.progress.Keys == s.progress.Keys
      && forall k :: k in s.progress && k != Key(userId, courseId) ==> o.store.progress[k] == s.progress[k]
    ensures o.status == OK ==>
      var before := s.progress[Key(userId, courseId)].lectureProgress;
      var after := o.store.progress[Key(userId, courseId)];
      && after.completed
      && ViewedCount(after.lectureProgress) == |before|
      && |after.lectureProgress| == |before|
      && forall i :: 0 <= i < |before| ==> after.lectureProgress[i] == LectureEntry(before[i].lectureId, true)
  {
    var o := SetCompletion(s, userId, courseId, true);
    if o.status == OK then
      AllViewedCount(o.store.progress[Key(userId, courseId)].lectureProgress, true);
      o
    else o
  }

  /** `markAsInCompleted`. */
  function MarkIncomplete(s: Store, userId: UserId, courseId: CourseId): (o: Outcome)
    ensures Key(userId, courseId) !in s.progress <==> o.status == NotFound
    ensures Key(userId, courseId) in s.progress <==> o.status == OK
    ensures o.status == NotFound ==> o.store == s
    ensures o.status == OK ==>
      && o.store == s.(progress := o.store.progress)
      && o.store.progress.Keys == s.progress.Keys
      && forall k :: k in s.progress && k != Key(userId, courseId) ==> o.store.progress[k] == s.progress[k]
    ensures o.status == OK ==>
      var before := s.progress[Key(userId, courseId)].lectureProgress;
      var after := o.store.progress[Key(userId, courseId)];
      && !after.completed
      && ViewedCount(after.lectureProgress) == 0
      && |after.lectureProgress| == |before|
      && forall i :: 0 <= i < |before| ==> after.lectureProgress[i] == LectureEntry(before[i].lectureId, false)
  {
    var o := SetCompletion(s, userId, courseId, false);
    if o.status == OK then
      AllViewedCount(o.store.progress[Key(userId, courseId)].lectureProgress, false);
      o
    else o
  }

  lemma {:induction false} AllViewedCount(entries: seq<LectureEntry>, v: bool)
    requires forall i :: 0 <= i < |entries| ==> entries[i].viewed == v
    ensures ViewedCount(entries) == if v then |entries| else 0
    decreases |entries|
  {
    if entries != [] {
      AllViewedCount(entries[1..], v);
    }
  }

  /** Reading progress after a view reports the viewed entries the view
      stored, and a completed course is still reported completed. */
  lemma GetAfterView(s: Store, userId: UserId, courseId: CourseId, lectureId: LectureId)
    requires s.HasCourse(courseId)
    ensures var before := RecordOrEmpty(s, userId, courseId);
      var r := GetProgress(ViewLecture(s, userId, courseId, lectureId).store, userId, courseId);
      && r.status == OK
      && r.progress == MarkViewed(before.lectureProgress, lectureId)
      && (before.completed ==> r.completed)
      && (r.completed <==> before.completed || |s.courses[courseId].lectures| == ViewedCount(r.progress))
  {
  }

  /** Reading progress after a manual override reports the override: every
      entry viewed and the course completed, or none viewed and not completed.
      Without a record both the override and the read give nothing. */
  lemma GetAfterMark(s: Store, userId: UserId, courseId: CourseId, v: bool)
    requires s.HasCourse(courseId)
    ensures var o := if v then MarkCompleted(s, userId, courseId) else MarkIncomplete(s, userId, courseId);
      var r := GetProgress(o.store, userId, courseId);
      && r.status == OK
      && r.completed == (Key(userId, courseId) in s.progress && v)
      && ViewedCount(r.progress) == (if v then |r.progress| else 0)
      && (Key(userId, courseId) !in s.progress ==> r.progress == [])
  {
  }

  /** Viewing the same lecture again leaves the whole store as the first view left it. */
  lemma ViewIdempotent(s: Store, userId: UserId, courseId: CourseId, lectureId: LectureId)
    ensures var once := ViewLecture(s, userId, courseId, lectureId).store;
      ViewLecture(once, userId, courseId, lectureId).store == once
  {
    var once := ViewLecture(s, userId, courseId, lectureId).store;
    var e := RecordOrEmpty(s, userId, courseId).lectureProgress;
    MarkViewedIdempotent(e, lectureId);
    var twice := ViewLecture(once, userId, courseId, lectureId).store;
    assert twice.progress == once.progress;
  }

  lemma MarkViewedIdempotent(entries: seq<LectureEntry>, id: LectureId)
    ensures MarkViewed(MarkViewed(entries, id), id) == MarkViewed(entries, id)
  {
    var r := MarkViewed(entries, id);
    match IndexOf(entries, id)
    case Some(i) =>
      assert r[i].lectureId == id;
      assert forall j :: 0 <= j < i ==> r[j].lectureId != id;
      assert IndexOf(r, id) == Some(i);
    case None =>
      assert r[|entries|].lectureId == id;
      assert forall j :: 0 <= j < |entries| ==> r[j].lectureId != id;
      assert IndexOf(r, id) == Some(|entries|);
  }

  /** A view changes the viewed count by at most one, and never lowers it. */
  lemma {:induction false} ViewedCountGrows(entries: seq<LectureEntry>, id: LectureId)
    ensures ViewedCount(entries) <= ViewedCount(MarkViewed(entries, id)) <= ViewedCount(entries) + 1
  {
    match IndexOf(entries, id)
    case Some(i) => ViewedCountUpdate(entries, i, entries[i].(viewed := true));
    case None => ViewedCountAppend(entries, LectureEntry(id, true));
  }

  lemma {:induction false} ViewedCountAppend(entries: seq<LectureEntry>, e: LectureEntry)
    ensures ViewedCount(entries + [e]) == ViewedCount(entries) + (if e.viewed then 1 else 0)
    decreases |entries|
  {
    if entries == [] {
      assert entries + [e] == [e];
    } else {
      assert (entries + [e])[1..] == entries[1..] + [e];
      ViewedCountAppend(entries[1..], e);
    }
  }

  lemma {:induction false} ViewedCountUpdate(entries: seq<LectureEntry>, i: nat, e: LectureEntry)
    requires i < |entries|
    ensures ViewedCount(entries[i := e]) ==
      ViewedCount(entries) - (if entries[i].viewed then 1 else 0) + (if e.viewed then 1 else 0)
    decreases |entries|
  {
    if i > 0 {
      assert entries[i := e][1..] == entries[1..][i - 1 := e];
      ViewedCountUpdate(entries[1..], i - 1, e);
    } else {
      assert entries[i := e][1..] == entries[1..];
    }
  }
}

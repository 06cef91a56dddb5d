/** Course and lecture rules: creation with trimmed, non-blank titles, lecture
    editing and its `isPreviewFree` parser, course editing (price and thumbnail
    replacement), lecture removal, and the preconditions for publishing. Media
    uploads are oracles: a handler receives the upload's result, and reports the
    public id of the old media it asks the storage service to delete. */
module Courses {
  import opened Common
  import opened Text
  import opened Records

  datatype CreateReply = CreateReply(status: nat, store: Store, id: Option<nat>)

  /** `createCourse`: 400 and no change when the title or category is missing or
      blank; otherwise a new course with the trimmed values, owned by the caller,
      without lectures and unpublished, appended with the next id. */
  function CreateCourse(s: Store, caller: UserId, title: Option<string>, category: Option<string>): (r: CreateReply)
    ensures r.status == BadRequest <==> Blank(title) || Blank(category)
    ensures r.status == BadRequest ==> r.store == s && r.id == None
    ensures r.status != BadRequest ==>
      && r.status == Created
      && r.id == Some(|s.courses|)
      && r.store == s.(courses := r.store.courses)
      && |r.store.courses| == |s.courses| + 1
      && r.store.courses[..|s.courses|] == s.courses
      && var c := r.store.courses[|s.courses|];
         && c.title == Trim(title.value) && c.title != [] && Trimmed(c.title)
         && c.category == Trim(category.value) && c.category != []
         && c.creator == caller && c.lectures == [] && c.enrolledStudents == {} && !c.isPublished
  {
    if Blank(title) || Blank(category) then CreateReply(BadRequest, s, None)
    else
      var c := Course(Trim(title.value), None, None, Trim(category.value), None, 0, None, caller, [], {}, false);
      var courses := s.courses + [c];
      assert courses[..|s.courses|] == s.courses;
      CreateReply(Created, s.(courses := courses), Some(|s.courses|))
  }

  /** `createLecture`: 400 and no change for a blank title; otherwise a new
      lecture with the trimmed title and a fresh id, whose id is pushed onto the
      end of the course's lecture list. An unknown course is not an error: the
      lecture is created and no course changes. */
  function CreateLecture(s: Store, courseId: CourseId, title: Option<string>): (r: CreateReply)
    ensures r.status == BadRequest <==> Blank(title)
    ensures r.status == BadRequest ==> r.store == s && r.id == None
    ensures r.status != BadRequest ==>
      && r.status == Created && r.id.Some?
      && var id := r.id.value;
         && id !in s.lectures
         && r.store.lectures == s.lectures[id := Lecture(Trim(title.value), None, None, false)]
         && r.store.users == s.users && r.store.purchases == s.purchases && r.store.progress == s.progress
         && |r.store.courses| == |s.courses|
         && (forall c :: 0 <= c < |s.courses| && c != courseId ==> r.store.courses[c] == s.courses[c])
         && (s.HasCourse(courseId) ==>
              r.store.courses[courseId] == s.courses[courseId].(lectures := s.courses[courseId].lectures + [id]))
  {
    if Blank(title) then CreateReply(BadRequest, s, None)
    else
      var id := NewId(s.lectures.Keys);
      var lectures := s.lectures[id := Lecture(Trim(title.value), None, None, false)];
      var courses :=
        if s.HasCourse(courseId)
        then s.courses[courseId := s.courses[courseId].(lectures := s.courses[courseId].lectures + [id])]
        else s.courses;
      CreateReply(Created, s.(lectures := lectures, courses := courses), Some(id))
  }

  /** A request-body field that is either form text or a JSON boolean. */
  datatype FieldValue = Text(text: string) | Flag(flag: bool)

  /** The `isPreviewFree` rule of `editLecture`: an absent field keeps the
      current value; a present one means true exactly when it is the text
      "true" or the boolean true. */
  function PreviewFlag(field: Option<FieldValue>, current: bool): (b: bool)
    ensures field.None? ==> b == current
    ensures field.Some? ==> (b <==> field.value == Text("true") || field.value == Flag(true))
  {
    match field
    case None => current
    case Some(Text(t)) => t == "true"
    case Some(Flag(f)) => f
  }

  /** What the media service returned for an uploaded file. */
  datatype UploadedMedia = UploadedMedia(secureUrl: string, publicId: string)

  /** A handler's reply together with the public id of old media it deletes. */
  datatype MediaReply = MediaReply(status: nat, store: Store, deleted: Option<string>)

  /** `editLecture`: 404 for an unknown lecture. The title is overwritten only by
      a truthy value (not trimmed); an uploaded video replaces the URL and public
      id, deleting the old video when it had one; `isPreviewFree` follows
      `PreviewFlag`. No other document changes. */
  function EditLecture(s: Store, lectureId: LectureId, title: Option<string>, video: Option<UploadedMedia>,
                       preview: Option<FieldValue>): (r: MediaReply)
    ensures r.status == NotFound <==> lectureId !in s.lectures
    ensures r.status == NotFound ==> r.store == s && r.deleted == None
    ensures r.status != NotFound ==>
      var prev := s.lectures[lectureId];
      && r.status == OK
      && lectureId in r.store.lectures
      && r.store == s.(lectures := s.lectures[lectureId := r.store.lectures[lectureId]])
      && var l := r.store.lectures[lectureId];
         && l.title == (if Truthy(title) then title.value else prev.title)
         && l.videoUrl == (if video.Some? then Some(video.value.secureUrl) else prev.videoUrl)
         && l.publicId == (if video.Some? then Some(video.value.publicId) else prev.publicId)
         && l.isPreviewFree == PreviewFlag(preview, prev.isPreviewFree)
         && (r.deleted.Some? <==> video.Some? && Truthy(prev.publicId))
         && (r.deleted.Some? ==> r.deleted == prev.publicId)
  {
    if lectureId !in s.lectures then MediaReply(NotFound, s, None)
    else
      var prev := s.lectures[lectureId];
      var titled := if Truthy(title) then title.value else prev.title;
      var deleted := if video.Some? && Truthy(prev.publicId) then prev.publicId else None;
      var url := if video.Some? then Some(video.value.secureUrl) else prev.videoUrl;
      var pid := if video.Some? then Some(video.value.publicId) else prev.publicId;
      var l := Lecture(titled, url, pid, PreviewFlag(preview, prev.isPreviewFree));
      MediaReply(OK, s.(lectures := s.lectures[lectureId := l]), deleted)
  }

  const ThumbnailFolder: string := "lms/course/thumbnails/"

  /** The public id of an old course thumbnail: the folder, then the URL's last
      path segment up to its first dot. */
  function ThumbnailPublicId(url: string): (r: string)
    ensures |r| >= |ThumbnailFolder| && r[..|ThumbnailFolder|] == ThumbnailFolder
    ensures '/' !in r[|ThumbnailFolder|..] && '.' !in r[|ThumbnailFolder|..]
  {
    var name := MediaName(url);
    assert (ThumbnailFolder + name)[|ThumbnailFolder|..] == name;
    ThumbnailFolder + name
  }

  /** The derivation inverts the delivery URL of a thumbnail stored as `name`. */
  lemma ThumbnailPublicIdOfUrl(dir: string, name: string, ext: string)
    requires '/' !in name && '.' !in name && '/' !in ext
    ensures ThumbnailPublicId(dir + "/" + name + "." + ext) == ThumbnailFolder + name
  {
    MediaNameOfUrl(dir, name, ext);
  }

  /** The text fields of an `editCourse` body; `None` is an absent field, which
      the update leaves untouched. */
  datatype CourseEdit = CourseEdit(
    title: Option<string>,
    subTitle: Option<string>,
    description: Option<string>,
    category: Option<string>,
    level: Option<string>,
    price: Option<string>)

  /** The new value of a field that is replaced only when present. */
  function Replace<T>(field: Option<T>, current: T): T
  {
    if field.Some? then field.value else current
  }

  /** `editCourse`: 404 for an unknown course. Present text fields overwrite the
      stored ones; the price changes only when supplied and not "", to
      `number(text)`; an uploaded thumbnail replaces the stored URL and deletes
      the old one when there was one. No other document changes. */
  function EditCourse(s: Store, courseId: CourseId, edit: CourseEdit, thumbnail: Option<UploadedMedia>,
                      number: string -> nat): (r: MediaReply)
    ensures r.status == NotFound <==> !s.HasCourse(courseId)
    ensures r.status == NotFound ==> r.store == s && r.deleted == None
    ensures r.status != NotFound ==>
      var prev := s.courses[courseId];
      && r.status == OK
      && |r.store.courses| == |s.courses|
      && r.store == s.(courses := s.courses[courseId := r.store.courses[courseId]])
      && var c := r.store.courses[courseId];
         && (c.price != prev.price ==> edit.price.Some? && edit.price.value != "")
         && (edit.price.Some? && edit.price.value != "" ==> c.price == number(edit.price.value))
         && c.title == Replace(edit.title, prev.title)
         && c.category == Replace(edit.category, prev.category)
         && c.subTitle == (if edit.subTitle.Some? then edit.subTitle else prev.subTitle)
         && c.description == (if edit.description.Some? then edit.description else prev.description)
         && c.level == (if edit.level.Some? then edit.level else prev.level)
         && c.thumbnail == (if thumbnail.Some? then Some(thumbnail.value.secureUrl) else prev.thumbnail)
         && c.creator == prev.creator && c.lectures == prev.lectures
         && c.enrolledStudents == prev.enrolledStudents && c.isPublished == prev.isPublished
         && (r.deleted.Some? <==> thumbnail.Some? && Truthy(prev.thumbnail))
         && (r.deleted.Some? ==> r.deleted.value == ThumbnailPublicId(prev.thumbnail.value))
  {
    if !s.HasCourse(courseId) then MediaReply(NotFound, s, None)
    else
      var prev := s.courses[courseId];
      var deleted := if thumbnail.Some? && Truthy(prev.thumbnail) then Some(ThumbnailPublicId(prev.thumbnail.value)) else None;
      var price := if edit.price.Some? && edit.price.value != "" then number(edit.price.value) else prev.price;
      var c := prev.(
        title := Replace(edit.title, prev.title),
        subTitle := if edit.subTitle.Some? then edit.subTitle else prev.subTitle,
        description := if edit.description.Some? then edit.description else prev.description,
        category := Replace(edit.category, prev.category),
        level := if edit.level.Some? then edit.level else prev.level,
        thumbnail := if thumbnail.Some? then Some(thumbnail.value.secureUrl) else prev.thumbnail,
        price := price);
      MediaReply(OK, s.(courses := s.courses[courseId := c]), deleted)
  }

  /** `$pull`: every occurrence of `x` removed, the rest kept in order. */
  function Pull(ids: seq<LectureId>, x: LectureId): (r: seq<LectureId>)
    ensures forall y :: y in r <==> y in ids && y != x
    ensures |r| <= |ids|
  {
    if |ids| == 0 then []
    else
      var rest := Pull(ids[1..], x);
      assert forall y :: y in ids <==> y == ids[0] || y in ids[1..];
      (if ids[0] == x then [] else [ids[0]]) + rest
  }

  /** Pulling keeps order: it distributes over concatenation. */
  lemma {:induction false} PullAppend(a: seq<LectureId>, b: seq<LectureId>, x: LectureId)
    ensures Pull(a + b, x) == Pull(a, x) + Pull(b, x)
    decreases |a|
  {
    if a == [] {
      assert a + b == b;
    } else {
      assert (a + b)[1..] == a[1..] + b;
      PullAppend(a[1..], b, x);
    }
  }

  /** Pulling an absent id changes nothing. */
  lemma {:induction false} PullAbsent(ids: seq<LectureId>, x: LectureId)
    requires x !in ids
    ensures Pull(ids, x) == ids
    decreases |ids|
  {
    if ids != [] {
      assert x !in ids[1..];
      PullAbsent(ids[1..], x);
      assert [ids[0]] + ids[1..] == ids;
    }
  }

  /** `Course.updateOne({lectures: id}, …)` targets the first course, in natural
      order, whose lecture list holds `id`. */
  function FirstCourseWith(courses: seq<Course>, id: LectureId): (r: Option<nat>)
    ensures r.None? <==> forall c :: 0 <= c < |courses| ==> id !in courses[c].lectures
    ensures r.Some? ==>
      && r.value < |courses| && id in courses[r.value].lectures
      && forall c :: 0 <= c < r.value ==> id !in courses[c].lectures
  {
    if |courses| == 0 then None
    else if id in courses[0].lectures then Some(0)
    else match FirstCourseWith(courses[1..], id)
      case None => None
      case Some(c) => Some(c + 1)
  }

  /** `removeLecture`: 404 for an unknown lecture; otherwise the lecture is
      deleted (and its video, when it has a public id), and the first course
      listing it loses every reference to it, keeping its other lectures in
      order. Users, purchases, progress and all other courses are unchanged. */
  function RemoveLecture(s: Store, lectureId: LectureId): (r: MediaReply)
    ensures r.status == NotFound <==> lectureId !in s.lectures
    ensures r.status == NotFound ==> r.store == s && r.deleted == None
    ensures r.status != NotFound ==>
      && r.status == OK
      && r.store.lectures == s.lectures - {lectureId}
      && r.store.users == s.users && r.store.purchases == s.purchases && r.store.progress == s.progress
      && (r.deleted.Some? <==> Truthy(s.lectures[lectureId].publicId))
      && (r.deleted.Some? ==> r.deleted == s.lectures[lectureId].publicId)
      && |r.store.courses| == |s.courses|
      && match FirstCourseWith(s.courses, lectureId)
         case None => r.store.courses == s.courses
         case Some(c) =>
           && r.store.courses[c] == s.courses[c].(lectures := Pull(s.courses[c].lectures, lectureId))
           && lectureId !in r.store.courses[c].lectures
           && forall d :: 0 <= d < |s.courses| && d != c ==> r.store.courses[d] == s.courses[d]
  {
    if lectureId !in s.lectures then MediaReply(NotFound, s, None)
    else
      var l := s.lectures[lectureId];
      var deleted := if Truthy(l.publicId) then l.publicId else None;
      var courses :=
        match FirstCourseWith(s.courses, lectureId)
        case None => s.courses
        case Some(c) => s.courses[c := s.courses[c].(lectures := Pull(s.courses[c].lectures, lectureId))];
      MediaReply(OK, s.(lectures := s.lectures - {lectureId}, courses := courses), deleted)
  }

  /** `populate("lectures")`: the referenced lectures that still exist, in list order. */
  function Populate(lectures: map<LectureId, Lecture>, ids: seq<LectureId>): (r: seq<Lecture>)
    ensures |r| <= |ids|
    ensures forall l :: l in r <==> exists id :: id in ids && id in lectures && lectures[id] == l
  {
    if |ids| == 0 then []
    else
      var rest := Populate(lectures, ids[1..]);
      assert forall y :: y in ids <==> y == ids[0] || y in ids[1..];
      (if ids[0] in lectures then [lectures[ids[0]]] else []) + rest
  }

  /** Some lecture has a (truthy) video URL and is a free preview. */
  predicate HasPublicPreview(ls: seq<Lecture>)
  {
    exists i :: 0 <= i < |ls| && Truthy(ls[i].videoUrl) && ls[i].isPreviewFree
  }

  /** `togglePublishCourse`: 404 for an unknown course. Publishing
      (`publish == "true"`) is refused with 400 when the course has no existing
      lecture, or none with a video that is a free preview; any other value
      unpublishes unconditionally. On success only `isPublished` changes, to
      `publish == "true"`. */
  function TogglePublish(s: Store, courseId: CourseId, publish: Option<string>): (o: Outcome)
    ensures o.status == NotFound <==> !s.HasCourse(courseId)
    ensures s.HasCourse(courseId) ==>
      var ls := Populate(s.lectures, s.courses[courseId].lectures);
      (o.status == BadRequest <==> publish == Some("true") && (|ls| == 0 || !HasPublicPreview(ls)))
    ensures o.status == OK || o.status == NotFound || o.status == BadRequest
    ensures o.status != OK ==> o.store == s
    ensures o.status == OK ==>
      && s.HasCourse(courseId)
      && o.store == s.(courses := s.courses[courseId := s.courses[courseId].(isPublished := publish == Some("true"))])
  {
    if !s.HasCourse(courseId) then Outcome(NotFound, s)
    else
      var ls := Populate(s.lectures, s.courses[courseId].lectures);
      if publish == Some("true") && |ls| == 0 then Outcome(BadRequest, s)
      else if publish == Some("true") && !HasPublicPreview(ls) then Outcome(BadRequest, s)
      else Outcome(OK, s.(courses := s.courses[courseId := s.courses[courseId].(isPublished := publish == Some("true"))]))
  }

  /** A course can be published exactly when one of its existing lectures has a
      video and is a free preview. */
  lemma PublishableIffPreview(s: Store, courseId: CourseId)
    requires s.HasCourse(courseId)
    ensures TogglePublish(s, courseId, Some("true")).status == OK <==>
      exists id :: id in s.courses[courseId].lectures && id in s.lectures
        && Truthy(s.lectures[id].videoUrl) && s.lectures[id].isPreviewFree
  {
    var ids := s.courses[courseId].lectures;
    var ls := Populate(s.lectures, ids);
    if HasPublicPreview(ls) {
      var i :| 0 <= i < |ls| && Truthy(ls[i].videoUrl) && ls[i].isPreviewFree;
      assert ls[i] in ls;
    }
    if exists id :: id in ids && id in s.lectures && Truthy(s.lectures[id].videoUrl) && s.lectures[id].isPreviewFree {
      var id :| id in ids && id in s.lectures && Truthy(s.lectures[id].videoUrl) && s.lectures[id].isPreviewFree;
      assert s.lectures[id] in ls;
      var i :| 0 <= i < |ls| && ls[i] == s.lectures[id];
      assert HasPublicPreview(ls);
    }
  }
}

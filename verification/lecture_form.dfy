/** The lecture editing form on the instructor side: its local state, the
    prefill from the fetched lecture, file selection, and the multipart body
    it sends. The body is read back with the server's field parsing, so the
    form and `editLecture` can be checked against each other. */
module LectureForm {
  import opened Common
  import opened Text
  import opened Records
  import Courses

  /** A file chosen in the browser; only its identity matters here. */
  type FileRef = nat

  datatype FormState = FormState(title: string, isPreviewFree: bool, videoFile: Option<FileRef>)

  /** The state before anything is fetched or typed. */
  const Initial: FormState := FormState("", false, None)

  /** The lecture as the edit page fetches it; either field may be absent. */
  datatype FetchedLecture = FetchedLecture(lectureTitle: Option<string>, isPreviewFree: Option<bool>)

  /** Prefill: once a lecture is fetched, the title becomes its title or `""`
      and the switch becomes `Boolean(isPreviewFree)`; the chosen file stays. */
  function Prefill(st: FormState, lecture: Option<FetchedLecture>): (r: FormState)
    ensures lecture.None? ==> r == st
    ensures lecture.Some? ==>
      && (r.title == "" <==> !Truthy(lecture.value.lectureTitle))
      && (Truthy(lecture.value.lectureTitle) ==> r.title == lecture.value.lectureTitle.value)
      && (r.isPreviewFree <==> lecture.value.isPreviewFree == Some(true))
    ensures r.videoFile == st.videoFile
  {
    match lecture
    case None => st
    case Some(l) =>
      st.(title := if Truthy(l.lectureTitle) then l.lectureTitle.value else "",
          isPreviewFree := l.isPreviewFree == Some(true))
  }

  /** `fileChangeHandler`: the first chosen file replaces the selection; an
      empty or missing file list keeps the previous one. */
  function ChooseFile(st: FormState, files: Option<seq<FileRef>>): (r: FormState)
    ensures r.title == st.title && r.isPreviewFree == st.isPreviewFree
    ensures r.videoFile == (if files.Some? && |files.value| > 0 then Some(files.value[0]) else st.videoFile)
  {
    if files.Some? && |files.value| > 0 then st.(videoFile := Some(files.value[0])) else st
  }

  /** The switch is sent as the text `"true"` or `"false"`. */
  function EncodePreview(b: bool): (t: string)
    ensures t == "true" || t == "false"
    ensures t == "true" <==> b
  {
    if b then "true" else "false"
  }

  /** The server's parser gives back the boolean the form encoded, whatever
      the lecture held before. */
  lemma EncodePreviewRoundTrip(b: bool, current: bool)
    ensures Courses.PreviewFlag(Some(Courses.Text(EncodePreview(b))), current) == b
  {
  }

  datatype FormPart = Field(name: string, value: string) | File(name: string, file: FileRef)

  /** `updateLectureHandler`: no request when the title is blank; otherwise the
      title as typed, the encoded switch, and the file only if one is chosen. */
  function Submit(st: FormState): (r: Option<seq<FormPart>>)
    ensures r.None? <==> AllSpace(st.title)
    ensures r.Some? ==>
      && |r.value| == (if st.videoFile.Some? then 3 else 2)
      && r.value[0] == Field("lectureTitle", st.title)
      && r.value[1] == Field("isPreviewFree", EncodePreview(st.isPreviewFree))
      && (st.videoFile.Some? ==> r.value[2] == File("file", st.videoFile.value))
  {
    if Trim(st.title) == [] then None
    else
      var fields := [Field("lectureTitle", st.title), Field("isPreviewFree", EncodePreview(st.isPreviewFree))];
      Some(if st.videoFile.Some? then fields + [File("file", st.videoFile.value)] else fields)
  }

  /** The first text field of that name, as the body parser exposes it. */
  function TextField(parts: seq<FormPart>, name: string): (r: Option<string>)
    ensures r.Some? ==> Field(name, r.value) in parts
    ensures r.None? ==> forall i :: 0 <= i < |parts| ==> !(parts[i].Field? && parts[i].name == name)
  {
    if |parts| == 0 then None
    else if parts[0].Field? && parts[0].name == name then Some(parts[0].value)
    else TextField(parts[1..], name)
  }

  /** Whether the upload middleware sees a file under `file`. */
  predicate HasFile(parts: seq<FormPart>)
  {
    exists i :: 0 <= i < |parts| && parts[i].File? && parts[i].name == "file"
  }

  /** A submitted form, received by `editLecture` for an existing lecture,
      stores the typed title and the switch's value, and replaces the video
      exactly when a file was chosen (with whatever the upload returned). */
  lemma SubmitThenEdit(s: Store, lectureId: LectureId, st: FormState, uploaded: Courses.UploadedMedia)
    requires lectureId in s.lectures
    requires Submit(st).Some?
    ensures var parts := Submit(st).value;
      var preview := TextField(parts, "isPreviewFree");
      var r := Courses.EditLecture(s, lectureId, TextField(parts, "lectureTitle"),
                 if HasFile(parts) then Some(uploaded) else None,
                 if preview.Some? then Some(Courses.Text(preview.value)) else None);
      && r.status == OK
      && r.store.lectures[lectureId].title == st.title
      && r.store.lectures[lectureId].isPreviewFree == st.isPreviewFree
      && (r.store.lectures[lectureId].videoUrl ==
            if st.videoFile.Some? then Some(uploaded.secureUrl) else s.lectures[lectureId].videoUrl)
  {
    SubmittedFields(st);
    EncodePreviewRoundTrip(st.isPreviewFree, s.lectures[lectureId].isPreviewFree);
  }

  /** Choosing files and then saving sends the first chosen file under
      `file`; choosing nothing sends what would have been sent before. */
  lemma ChooseThenSubmit(st: FormState, files: Option<seq<FileRef>>)
    requires !AllSpace(st.title)
    ensures var sent := Submit(ChooseFile(st, files));
      && sent.Some?
      && (files.Some? && |files.value| > 0 ==>
            && |sent.value| == 3
            && sent.value[2] == File("file", files.value[0])
            && HasFile(sent.value))
    ensures !(files.Some? && |files.value| > 0) ==> Submit(ChooseFile(st, files)) == Submit(st)
  {
  }

  /** The server reads a submitted body back as the form's title and encoded
      switch, and sees a file exactly when one was chosen. */
  lemma SubmittedFields(st: FormState)
    requires Submit(st).Some?
    ensures TextField(Submit(st).value, "lectureTitle") == Some(st.title) && st.title != ""
    ensures TextField(Submit(st).value, "isPreviewFree") == Some(EncodePreview(st.isPreviewFree))
    ensures HasFile(Submit(st).value) <==> st.videoFile.Some?
  {
    var parts := Submit(st).value;
    assert parts[1..][0] == parts[1];
    if st.videoFile.Some? {
      assert parts[2].File? && parts[2].name == "file";
    } else {
      assert forall i :: 0 <= i < |parts| ==> parts[i].Field?;
    }
    assert st.title != "";
  }

  /** Opening a stored lecture and saving it untouched keeps its title and its
      preview switch. */
  lemma PrefillThenSubmitKeeps(s: Store, lectureId: LectureId, uploaded: Courses.UploadedMedia)
    requires lectureId in s.lectures
    requires !AllSpace(s.lectures[lectureId].title)
    ensures var l := s.lectures[lectureId];
      var st := Prefill(Initial, Some(FetchedLecture(Some(l.title), Some(l.isPreviewFree))));
      && Submit(st).Some?
      && var parts := Submit(st).value;
         var preview := TextField(parts, "isPreviewFree");
         var r := Courses.EditLecture(s, lectureId, TextField(parts, "lectureTitle"),
                    if HasFile(parts) then Some(uploaded) else None,
                    if preview.Some? then Some(Courses.Text(preview.value)) else None);
         r.store.lectures == s.lectures
  {
    var l := s.lectures[lectureId];
    assert l.title != "";
    var st := Prefill(Initial, Some(FetchedLecture(Some(l.title), Some(l.isPreviewFree))));
    SubmitThenEdit(s, lectureId, st, uploaded);
  }
}

/** The persisted documents the controllers read and write, held as one
    immutable in-memory store. Users and courses are never deleted by any
    handler, so they are append-only sequences whose index is the document id
    and whose order is MongoDB's natural (insertion) order; lectures can be
    deleted, so they live in a map. */
module Records {
  import opened Common

  type UserId = nat
  type CourseId = nat
  type LectureId = nat

  datatype Lecture = Lecture(
    title: string,
    videoUrl: Option<string>,
    publicId: Option<string>,
    isPreviewFree: bool)

  datatype Course = Course(
    title: string,
    subTitle: Option<string>,
    description: Option<string>,
    category: string,
    level: Option<string>,
    price: nat,                    // whole rupees
    thumbnail: Option<string>,
    creator: UserId,
    lectures: seq<LectureId>,      // ordered list of lecture references
    enrolledStudents: set<UserId>,
    isPublished: bool)

  datatype User = User(
    name: string,
    email: string,
    password: string,              // the stored bcrypt hash
    role: string,
    photoUrl: Option<string>,
    enrolledCourses: set<CourseId>)

  /** The status values the handlers write. */
  datatype PurchaseStatus = Pending | Completed

  /** `amount` is in rupees; it is a real so that `amount_total / 100` is exact. */
  datatype Purchase = Purchase(
    courseId: CourseId,
    userId: UserId,
    amount: real,
    status: PurchaseStatus,
    paymentId: string)

  datatype LectureEntry = LectureEntry(lectureId: LectureId, viewed: bool)

  datatype ProgressRecord = ProgressRecord(lectureProgress: seq<LectureEntry>, completed: bool)

  datatype Store = Store(
    users: seq<User>,
    courses: seq<Course>,
    lectures: map<LectureId, Lecture>,
    purchases: seq<Purchase>,
    progress: map<(UserId, CourseId), ProgressRecord>)
  {
    predicate HasUser(id: UserId) { id < |users| }
    predicate HasCourse(id: CourseId) { id < |courses| }
  }

  /** What a state-changing handler produces: its HTTP status and the store after it. */
  datatype Outcome = Outcome(status: nat, store: Store)

  /** Every id below `n` is taken, so at least `n` ids are taken. */
  lemma {:induction false} PrefixTaken(ids: set<nat>, n: nat)
    requires forall k: nat :: k < n ==> k in ids
    ensures n <= |ids|
    decreases n
  {
    if n > 0 {
      var rest := ids - {n - 1};
      assert forall k: nat :: k < n - 1 ==> k in rest;
      PrefixTaken(rest, n - 1);
    }
  }

  function FreshFrom(ids: set<nat>, n: nat): (r: nat)
    requires forall k: nat :: k < n ==> k in ids
    ensures r !in ids && n <= r
    decreases |ids| - n
  {
    PrefixTaken(ids, n);
    if n !in ids then n
    else
      PrefixTaken(ids, n + 1);
      FreshFrom(ids, n + 1)
  }

  /** The id MongoDB assigns to a new document: one no existing document has. */
  function NewId(ids: set<nat>): (r: nat)
    ensures r !in ids
  {
    FreshFrom(ids, 0)
  }
}

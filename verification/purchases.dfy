/** The purchase lifecycle: hosted checkout, the payment-gateway webhook that
    completes a purchase, the entitlement check behind the course-detail page,
    and the listing of completed purchases. The gateway (session creation and
    webhook signature verification) is an oracle passed in as a parameter. */
module Purchases {
  import opened Common
  import opened Records

  /** The single line item of a checkout session; gateway amounts are in paise. */
  datatype LineItem = LineItem(currency: string, productName: string, unitAmount: nat, quantity: nat)

  /** What checkout asks the gateway for: the line item, and the metadata that
      links the session back to the course and the buyer. */
  datatype SessionRequest = SessionRequest(item: LineItem, courseId: CourseId, userId: UserId)

  /** The gateway's answer to a session request. */
  datatype GatewayReply = SessionCreated(sessionId: string, url: string) | GatewayFailure

  datatype CheckoutReply = CheckoutReply(
    status: nat,
    store: Store,
    request: Option<SessionRequest>,   // the session request sent, if any
    url: Option<string>)               // the hosted-checkout URL returned to the client

  /** The rupee amount recorded for a charge of `paise`: `amount_total / 100`. */
  function Rupees(paise: nat): real
  {
    paise as real / 100.0
  }

  function SessionRequestFor(courseId: CourseId, userId: UserId, c: Course): SessionRequest
  {
    SessionRequest(LineItem("inr", c.title, c.price * 100, 1), courseId, userId)
  }

  /** `createCheckoutSession`: the purchase is stored, pending, only once the
      gateway has returned a session; an unknown course or a gateway failure
      leaves the store untouched. */
  function Checkout(s: Store, userId: UserId, courseId: CourseId, reply: GatewayReply): (r: CheckoutReply)
    ensures r.status == OK || r.status == NotFound || r.status == ServerError
    ensures r.status == NotFound <==> !s.HasCourse(courseId)
    ensures r.status == ServerError <==> s.HasCourse(courseId) && reply.GatewayFailure?
    ensures r.status != OK ==> r.store == s && r.url == None
    ensures r.status == OK ==>
      && reply.SessionCreated?
      && r.store == s.(purchases := s.purchases + [Purchase(courseId, userId, s.courses[courseId].price as real, Pending, reply.sessionId)])
      && r.url == Some(reply.url)
    ensures r.request.Some? <==> s.HasCourse(courseId)
    ensures r.request.Some? ==>
      var req := r.request.value;
      && req.item.quantity == 1
      && Rupees(req.item.unitAmount * req.item.quantity) == s.courses[courseId].price as real
      && req.courseId == courseId && req.userId == userId
  {
    if !s.HasCourse(courseId) then CheckoutReply(NotFound, s, None, None)
    else
      var c := s.courses[courseId];
      var req := SessionRequestFor(courseId, userId, c);
      match reply
      case GatewayFailure => CheckoutReply(ServerError, s, Some(req), None)
      case SessionCreated(sid, url) =>
        var p := Purchase(courseId, userId, c.price as real, Pending, sid);
        CheckoutReply(OK, s.(purchases := s.purchases + [p]), Some(req), Some(url))
  }

  const CheckoutCompletedEvent: string := "checkout.session.completed"

  /** A verified gateway event: its type, the session it concerns and the
      amount actually charged (paise). */
  datatype GatewayEvent = GatewayEvent(kind: string, sessionId: string, amountTotal: nat)

  /** `CoursePurchase.findOne({paymentId})`: the first purchase carrying the session id. */
  function FindBySession(ps: seq<Purchase>, sessionId: string): (r: Option<nat>)
    ensures r.None? <==> forall i :: 0 <= i < |ps| ==> ps[i].paymentId != sessionId
    ensures r.Some? ==>
      && r.value < |ps| && ps[r.value].paymentId == sessionId
      && forall j :: 0 <= j < r.value ==> ps[j].paymentId != sessionId
  {
    if |ps| == 0 then None
    else if ps[0].paymentId == sessionId then Some(0)
    else match FindBySession(ps[1..], sessionId)
      case None => None
      case Some(i) => Some(i + 1)
  }

  /** `Lecture.updateMany({_id: {$in: ids}}, {$set: {isPreviewFree: true}})`. */
  function UnlockPreviews(lectures: map<LectureId, Lecture>, ids: seq<LectureId>): map<LectureId, Lecture>
  {
    map k | k in lectures :: if k in ids then lectures[k].(isPreviewFree := true) else lectures[k]
  }

  /** `User.findByIdAndUpdate(u, {$addToSet: {enrolledCourses: c}})`; no effect for an unknown user. */
  function EnrolUser(users: seq<User>, u: UserId, c: CourseId): seq<User>
  {
    if u < |users| then users[u := users[u].(enrolledCourses := users[u].enrolledCourses + {c})] else users
  }

  /** `Course.findByIdAndUpdate(c, {$addToSet: {enrolledStudents: u}})`. */
  function EnrolStudent(courses: seq<Course>, c: CourseId, u: UserId): seq<Course>
  {
    if c < |courses| then courses[c := courses[c].(enrolledStudents := courses[c].enrolledStudents + {u})] else courses
  }

  /** The effect of completing purchase `i` with a charge of `amountTotal`, stated
      record by record: the purchase becomes completed with the charged amount;
      when its course exists, every lecture of the course becomes a free preview,
      the buyer gains the course and the course gains the buyer; nothing else
      changes. */
  ghost predicate Completes(s: Store, i: nat, amountTotal: nat, t: Store)
    requires i < |s.purchases|
  {
    var p := s.purchases[i];
    && t.purchases == s.purchases[i := p.(status := Completed, amount := Rupees(amountTotal))]
    && t.progress == s.progress
    && |t.users| == |s.users|
    && |t.courses| == |s.courses|
    && t.lectures.Keys == s.lectures.Keys
    && (forall k :: k in s.lectures ==>
          t.lectures[k] == if s.HasCourse(p.courseId) && k in s.courses[p.courseId].lectures
                           then s.lectures[k].(isPreviewFree := true) else s.lectures[k])
    && (forall u :: 0 <= u < |s.users| ==>
          t.users[u] == if s.HasCourse(p.courseId) && u == p.userId
                        then s.users[u].(enrolledCourses := s.users[u].enrolledCourses + {p.courseId})
                        else s.users[u])
    && (forall c :: 0 <= c < |s.courses| ==>
          t.courses[c] == if c == p.courseId
                          then s.courses[c].(enrolledStudents := s.courses[c].enrolledStudents + {p.userId})
                          else s.courses[c])
  }

  /** `stripeWebhook`. A bad signature is rejected with 400 and other event types
      are acknowledged with 200, both without any change; a completed-checkout
      event for an unknown session gets 404. For a known session the purchase is
      completed (there is no status check), and when the purchase's course no
      longer exists the handler fails with 500 after saving the purchase. */
  function Webhook(s: Store, signatureValid: bool, ev: GatewayEvent): (o: Outcome)
    ensures !signatureValid ==> o == Outcome(BadRequest, s)
    ensures signatureValid && ev.kind != CheckoutCompletedEvent ==> o == Outcome(OK, s)
    ensures signatureValid && ev.kind == CheckoutCompletedEvent ==>
      match FindBySession(s.purchases, ev.sessionId)
      case None => o == Outcome(NotFound, s)
      case Some(i) =>
        && o.status == (if s.HasCourse(s.purchases[i].courseId) then OK else ServerError)
        && Completes(s, i, ev.amountTotal, o.store)
  {
    if !signatureValid then Outcome(BadRequest, s)
    else if ev.kind != CheckoutCompletedEvent then Outcome(OK, s)
    else match FindBySession(s.purchases, ev.sessionId)
      case None => Outcome(NotFound, s)
      case Some(i) =>
        var p := s.purchases[i];
        var purchases := s.purchases[i := p.(status := Completed, amount := Rupees(ev.amountTotal))];
        if !s.HasCourse(p.courseId) then Outcome(ServerError, s.(purchases := purchases))
        else
          var c := s.courses[p.courseId];
          Outcome(OK, s.(
            purchases := purchases,
            lectures := UnlockPreviews(s.lectures, c.lectures),
            users := EnrolUser(s.users, p.userId, p.courseId),
            courses := EnrolStudent(s.courses, p.courseId, p.userId)))
  }

  /** Replaying a verified event changes nothing: every effect of the webhook is
      an overwrite or a set insertion, and the purchase keeps its session id. */
  lemma WebhookIdempotent(s: Store, ev: GatewayEvent)
    ensures Webhook(Webhook(s, true, ev).store, true, ev) == Webhook(s, true, ev)
  {
    var once := Webhook(s, true, ev);
    if ev.kind == CheckoutCompletedEvent {
      match FindBySession(s.purchases, ev.sessionId)
      case None =>
      case Some(i) =>
        var t := once.store;
        assert FindBySession(t.purchases, ev.sessionId) == Some(i) by {
          assert t.purchases[i].paymentId == ev.sessionId;
          assert forall j :: 0 <= j < i ==> t.purchases[j] == s.purchases[j];
        }
        var c := s.purchases[i].courseId;
        if s.HasCourse(c) {
          assert t.courses[c].lectures == s.courses[c].lectures;
        }
    }
  }

  /** The store after `n` deliveries of the same verified event. */
  function Redeliver(s: Store, ev: GatewayEvent, n: nat): Store
  {
    if n == 0 then s else Webhook(Redeliver(s, ev, n - 1), true, ev).store
  }

  /** Delivering an event any positive number of times has the effect of
      delivering it once. */
  lemma {:induction false} RedeliverIsOnce(s: Store, ev: GatewayEvent, n: nat)
    requires n >= 1
    ensures Redeliver(s, ev, n) == Webhook(s, true, ev).store
  {
    if n > 1 {
      RedeliverIsOnce(s, ev, n - 1);
      WebhookIdempotent(s, ev);
    }
  }

  /** Entitlement: some completed purchase pairs this user with this course. */
  ghost predicate HasCompletedPurchase(ps: seq<Purchase>, userId: UserId, courseId: CourseId)
  {
    exists i :: 0 <= i < |ps| && ps[i].userId == userId && ps[i].courseId == courseId && ps[i].status == Completed
  }

  /** `CoursePurchase.findOne({userId, courseId, status: "completed"})` found something. */
  function AnyCompleted(ps: seq<Purchase>, userId: UserId, courseId: CourseId): (b: bool)
    ensures b <==> HasCompletedPurchase(ps, userId, courseId)
  {
    if |ps| == 0 then false
    else if ps[0].userId == userId && ps[0].courseId == courseId && ps[0].status == Completed then true
    else
      var b := AnyCompleted(ps[1..], userId, courseId);
      assert b ==> HasCompletedPurchase(ps, userId, courseId) by {
        if b {
          var i :| 0 <= i < |ps[1..]| && ps[1..][i].userId == userId && ps[1..][i].courseId == courseId && ps[1..][i].status == Completed;
          assert ps[i + 1] == ps[1..][i];
        }
      }
      assert HasCompletedPurchase(ps, userId, courseId) ==> b by {
        if HasCompletedPurchase(ps, userId, courseId) {
          var i :| 0 <= i < |ps| && ps[i].userId == userId && ps[i].courseId == courseId && ps[i].status == Completed;
          assert i > 0 && ps[1..][i - 1] == ps[i];
        }
      }
      b
  }

  datatype Access = Access(isCreator: bool, purchased: bool)

  datatype AccessReply = AccessReply(status: nat, access: Option<Access>)

  /** `getCourseDetailWithPurchaseStatus`: the creator is recognised by id and is
      never reported as a purchaser; anyone else has purchased exactly when a
      completed purchase exists for the pair. A course whose creator document is
      gone fails with 500 (populate yields null). */
  function CourseAccess(s: Store, userId: UserId, courseId: CourseId): (r: AccessReply)
    ensures r.status == NotFound <==> !s.HasCourse(courseId)
    ensures r.status == ServerError <==> s.HasCourse(courseId) && !s.HasUser(s.courses[courseId].creator)
    ensures r.access.Some? <==> r.status == OK
    ensures r.status == OK || r.status == NotFound || r.status == ServerError
    ensures r.access.Some? ==> (r.access.value.isCreator <==> s.courses[courseId].creator == userId)
    ensures r.access.Some? ==>
      (r.access.value.purchased <==> !r.access.value.isCreator && HasCompletedPurchase(s.purchases, userId, courseId))
  {
    if !s.HasCourse(courseId) then AccessReply(NotFound, None)
    else
      var c := s.courses[courseId];
      if !s.HasUser(c.creator) then AccessReply(ServerError, None)
      else
        var isCreator := c.creator == userId;
        var purchased := if isCreator then false else AnyCompleted(s.purchases, userId, courseId);
        AccessReply(OK, Some(Access(isCreator, purchased)))
  }

  /** `getAllPurchasedCourse`: the completed purchases, in store order. */
  function CompletedPurchases(ps: seq<Purchase>): (r: seq<Purchase>)
    ensures forall p :: p in r <==> p in ps && p.status == Completed
    ensures |r| <= |ps|
  {
    if |ps| == 0 then []
    else
      var rest := CompletedPurchases(ps[1..]);
      assert forall p :: p in ps <==> p == ps[0] || p in ps[1..];
      (if ps[0].status == Completed then [ps[0]] else []) + rest
  }

  /** The listing keeps store order: it distributes over concatenation. */
  lemma {:induction false} CompletedPurchasesAppend(a: seq<Purchase>, b: seq<Purchase>)
    ensures CompletedPurchases(a + b) == CompletedPurchases(a) + CompletedPurchases(b)
    decreases |a|
  {
    if a != [] {
      assert (a + b)[1..] == a[1..] + b;
      CompletedPurchasesAppend(a[1..], b);
    } else {
      assert a + b == b;
    }
  }
}

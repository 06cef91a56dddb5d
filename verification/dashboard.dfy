/** The instructor dashboard's figures, derived from the purchase listing as
    the client receives it: a missing list counts as empty, sales are the
    number of records, revenue adds the amounts with a missing or zero amount
    counting as 0, and the price chart has one point per record. */
module Dashboard {
  import opened Common
  import opened Records
  import Purchases

  /** The populated course of a purchase record; either field may be absent. */
  datatype CourseRef = CourseRef(courseTitle: Option<string>, coursePrice: Option<real>)

  /** One listed purchase; `courseId` is absent when population found no course. */
  datatype PurchaseRow = PurchaseRow(courseId: Option<CourseRef>, amount: Option<real>)

  /** One point of the price chart. */
  datatype Point = Point(name: string, price: real)

  /** `data?.purchasedCourse ?? []`. */
  function Rows(data: Option<seq<PurchaseRow>>): seq<PurchaseRow>
  {
    if data.Some? then data.value else []
  }

  /** `element?.amount || 0`: a missing or zero amount contributes nothing. */
  function AmountOrZero(a: Option<real>): (r: real)
    ensures a.None? ==> r == 0.0
    ensures a.Some? ==> r == a.value
  {
    if a.Some? && a.value != 0.0 then a.value else 0.0
  }

  /** The left fold `reduce((acc, e) => acc + (e?.amount || 0), 0)`. */
  function Revenue(rows: seq<PurchaseRow>): real
  {
    if |rows| == 0 then 0.0
    else Revenue(rows[..|rows| - 1]) + AmountOrZero(rows[|rows| - 1].amount)
  }

  /** Revenue is additive over concatenation, so it does not depend on how the
      listing is split. */
  lemma {:induction false} RevenueAppend(a: seq<PurchaseRow>, b: seq<PurchaseRow>)
    ensures Revenue(a + b) == Revenue(a) + Revenue(b)
    decreases |b|
  {
    if |b| == 0 {
      assert a + b == a;
    } else {
      var last := b[|b| - 1];
      assert (a + b)[..|a + b| - 1] == a + b[..|b| - 1];
      assert (a + b)[|a + b| - 1] == last;
      RevenueAppend(a, b[..|b| - 1]);
    }
  }

  /** Revenue is never negative when no amount is. */
  lemma {:induction false} RevenueNonNegative(rows: seq<PurchaseRow>)
    requires forall i :: 0 <= i < |rows| && rows[i].amount.Some? ==> rows[i].amount.value >= 0.0
    ensures Revenue(rows) >= 0.0
  {
    if |rows| > 0 {
      RevenueNonNegative(rows[..|rows| - 1]);
    }
  }

  function PointOf(row: PurchaseRow): Point
  {
    var name := if row.courseId.Some? && row.courseId.value.courseTitle.Some? then row.courseId.value.courseTitle.value else "Unknown";
    var price := if row.courseId.Some? && row.courseId.value.coursePrice.Some? then row.courseId.value.coursePrice.value else 0.0;
    Point(name, price)
  }

  datatype Figures = Figures(totalSales: nat, totalRevenue: real, courseData: seq<Point>)

  /** The three dashboard figures for the listing `data`. */
  function Summarise(data: Option<seq<PurchaseRow>>): (f: Figures)
    ensures data.None? ==> f == Figures(0, 0.0, [])
    ensures f.totalSales == |Rows(data)| == |f.courseData|
    ensures f.totalRevenue == Revenue(Rows(data))
    ensures forall i :: 0 <= i < |f.courseData| ==>
      && (f.courseData[i].name == "Unknown" <==>
            Rows(data)[i].courseId.None? || Rows(data)[i].courseId.value.courseTitle in {None, Some("Unknown")})
      && (Rows(data)[i].courseId.Some? && Rows(data)[i].courseId.value.coursePrice.Some? ==>
            f.courseData[i].price == Rows(data)[i].courseId.value.coursePrice.value)
      && (Rows(data)[i].courseId.None? || Rows(data)[i].courseId.value.coursePrice.None? ==>
            f.courseData[i].price == 0.0)
  {
    var rows := Rows(data);
    Figures(|rows|, Revenue(rows), seq(|rows|, i requires 0 <= i < |rows| => PointOf(rows[i])))
  }

  /** The row the listing endpoint yields for a stored purchase: the course is
      populated when it exists. */
  function RowOf(s: Store, p: Purchase): PurchaseRow
  {
    var course := if s.HasCourse(p.courseId)
      then Some(CourseRef(Some(s.courses[p.courseId].title), Some(s.courses[p.courseId].price as real)))
      else None;
    PurchaseRow(course, Some(p.amount))
  }

  function RowsOf(s: Store, ps: seq<Purchase>): (r: seq<PurchaseRow>)
    ensures |r| == |ps|
    ensures forall i :: 0 <= i < |ps| ==> r[i] == RowOf(s, ps[i])
  {
    seq(|ps|, i requires 0 <= i < |ps| => RowOf(s, ps[i]))
  }

  /** The sum of the stored amounts, the quantity the revenue figure reports. */
  function AmountSum(ps: seq<Purchase>): real
  {
    if |ps| == 0 then 0.0 else AmountSum(ps[..|ps| - 1]) + ps[|ps| - 1].amount
  }

  /** Fed the server's listing, the dashboard reports one sale per completed
      purchase, their summed amounts as revenue, and each purchase's course
      title and price, or "Unknown" and 0 when the course is gone. */
  lemma {:induction false} DashboardOfListing(s: Store)
    ensures var ps := Purchases.CompletedPurchases(s.purchases);
      var f := Summarise(Some(RowsOf(s, ps)));
      && f.totalSales == |ps|
      && f.totalRevenue == AmountSum(ps)
      && forall i :: 0 <= i < |ps| ==>
           f.courseData[i] == (if s.HasCourse(ps[i].courseId)
             then Point(s.courses[ps[i].courseId].title, s.courses[ps[i].courseId].price as real)
             else Point("Unknown", 0.0))
  {
    var ps := Purchases.CompletedPurchases(s.purchases);
    RevenueOfRows(s, ps);
  }

  lemma {:induction false} RevenueOfRows(s: Store, ps: seq<Purchase>)
    ensures Revenue(RowsOf(s, ps)) == AmountSum(ps)
    decreases |ps|
  {
    if |ps| > 0 {
      var init := ps[..|ps| - 1];
      assert RowsOf(s, ps)[..|ps| - 1] == RowsOf(s, init);
      RevenueOfRows(s, init);
    }
  }
}

/** The part of `searchCourse` that is decision logic: only published courses
    are returned, and `sortByPrice` chooses ascending, descending or no order.
    The text match (case-insensitive regular expression over title, subtitle and
    category) is an opaque predicate parameter. */
module Search {
  import opened Records

  datatype SortOrder = Ascending | Descending | Unsorted

  /** `"low"` sorts by ascending price, `"high"` by descending price, anything
      else applies no sort. */
  function SortChoice(sortByPrice: string): (o: SortOrder)
    ensures o == Ascending <==> sortByPrice == "low"
    ensures o == Descending <==> sortByPrice == "high"
    ensures o == Unsorted <==> sortByPrice != "low" && sortByPrice != "high"
  {
    if sortByPrice == "low" then Ascending
    else if sortByPrice == "high" then Descending
    else Unsorted
  }

  predicate InOrder(a: Course, b: Course, o: SortOrder)
  {
    match o
    case Ascending => a.price <= b.price
    case Descending => a.price >= b.price
    case Unsorted => true
  }

  predicate SortedBy(cs: seq<Course>, o: SortOrder)
  {
    forall i, j :: 0 <= i < j < |cs| ==> InOrder(cs[i], cs[j], o)
  }

  /** Insert `c` before the first course it may precede. */
  function Insert(c: Course, cs: seq<Course>, o: SortOrder): (r: seq<Course>)
    requires SortedBy(cs, o)
    ensures SortedBy(r, o)
    ensures multiset(r) == multiset(cs) + multiset{c}
  {
    if |cs| == 0 then [c]
    else if InOrder(c, cs[0], o) then
      assert forall j :: 0 <= j < |cs| ==> InOrder(c, cs[j], o) by {
        forall j | 0 <= j < |cs| ensures InOrder(c, cs[j], o) {
          if j > 0 { assert InOrder(cs[0], cs[j], o); }
        }
      }
      [c] + cs
    else
      var rest := Insert(c, cs[1..], o);
      HeadPrecedes(c, cs, rest, o);
      ConsSorted(cs[0], rest, o);
      assert cs == [cs[0]] + cs[1..];
      [cs[0]] + rest
  }

  /** When `c` may not precede the head of a sorted list, the head may precede
      everything that inserting `c` into the tail produces. */
  lemma HeadPrecedes(c: Course, cs: seq<Course>, rest: seq<Course>, o: SortOrder)
    requires |cs| > 0 && SortedBy(cs, o) && !InOrder(c, cs[0], o)
    requires multiset(rest) == multiset(cs[1..]) + multiset{c}
    ensures forall x :: x in rest ==> InOrder(cs[0], x, o)
  {
    forall x | x in rest ensures InOrder(cs[0], x, o) {
      assert x in multiset(rest);
      if x != c {
        assert x in multiset(cs[1..]);
        var j :| 0 <= j < |cs[1..]| && cs[1..][j] == x;
        assert InOrder(cs[0], cs[j + 1], o);
      }
    }
  }

  /** A head that may precede every element of a sorted list keeps it sorted. */
  lemma ConsSorted(h: Course, rest: seq<Course>, o: SortOrder)
    requires SortedBy(rest, o)
    requires forall x :: x in rest ==> InOrder(h, x, o)
    ensures SortedBy([h] + rest, o)
  {
    var r := [h] + rest;
    forall i, j | 0 <= i < j < |r| ensures InOrder(r[i], r[j], o) {
      if i == 0 { assert r[j] == rest[j - 1]; assert rest[j - 1] in rest; }
      else { assert r[i] == rest[i - 1] && r[j] == rest[j - 1]; }
    }
  }

  /** Order the courses by price as `o` asks; `Unsorted` keeps them as they are. */
  function SortCourses(cs: seq<Course>, o: SortOrder): (r: seq<Course>)
    ensures SortedBy(r, o)
    ensures multiset(r) == multiset(cs)
    ensures o == Unsorted ==> r == cs
  {
    if o == Unsorted then cs
    else if |cs| == 0 then []
    else
      assert cs == [cs[0]] + cs[1..];
      Insert(cs[0], SortCourses(cs[1..], o), o)
  }

  /** The published courses the query matches, in store order. */
  function Matching(cs: seq<Course>, matches: Course -> bool): (r: seq<Course>)
    ensures forall c :: c in r <==> c in cs && c.isPublished && matches(c)
    ensures |r| <= |cs|
  {
    if |cs| == 0 then []
    else
      var rest := Matching(cs[1..], matches);
      assert forall c :: c in cs <==> c == cs[0] || c in cs[1..];
      (if cs[0].isPublished && matches(cs[0]) then [cs[0]] else []) + rest
  }

  /** `searchCourse`: exactly the published, matching courses, each as often as
      it is stored, ordered by price as `sortByPrice` asks (store order when it
      asks for no sort). */
  function SearchCourses(s: Store, matches: Course -> bool, sortByPrice: string): (r: seq<Course>)
    ensures forall c :: c in r <==> c in s.courses && c.isPublished && matches(c)
    ensures multiset(r) == multiset(Matching(s.courses, matches))
    ensures SortedBy(r, SortChoice(sortByPrice))
    ensures sortByPrice == "low" ==> forall i, j :: 0 <= i < j < |r| ==> r[i].price <= r[j].price
    ensures sortByPrice == "high" ==> forall i, j :: 0 <= i < j < |r| ==> r[i].price >= r[j].price
    ensures SortChoice(sortByPrice) == Unsorted ==> r == Matching(s.courses, matches)
  {
    var found := Matching(s.courses, matches);
    var r := SortCourses(found, SortChoice(sortByPrice));
    assert forall c :: c in r <==> c in found by {
      forall c ensures c in r <==> c in found {
        assert c in r <==> c in multiset(r);
        assert c in found <==> c in multiset(found);
      }
    }
    r
  }
}

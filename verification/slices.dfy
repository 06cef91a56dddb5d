/** The client's authentication state: who is logged in and whether the
    session counts as authenticated. Actions the slice does not handle leave
    the state as it is. */
module AuthSlice {
  import opened Common
  import Accounts

  datatype State = State(user: Option<Accounts.Profile>, isAuthenticated: bool)

  datatype Action = UserLoggedIn(user: Option<Accounts.Profile>) | UserLoggedOut | Unhandled

  const Initial: State := State(None, false)

  /** `userLoggedIn` stores the payload's user, even a null one, and marks the
      session authenticated; `userLoggedOut` clears both. */
  function Reduce(st: State, a: Action): (r: State)
    ensures a.UserLoggedIn? ==> r.isAuthenticated && r.user == a.user
    ensures a.UserLoggedOut? ==> r == Initial
    ensures a.Unhandled? ==> r == st
    ensures r.isAuthenticated <==> a.UserLoggedIn? || (a.Unhandled? && st.isAuthenticated)
  {
    match a
    case UserLoggedIn(u) => State(u, true)
    case UserLoggedOut => Initial
    case Unhandled => st
  }

  /** An unauthenticated state never holds a user. */
  predicate Consistent(st: State)
  {
    !st.isAuthenticated ==> st.user.None?
  }

  /** The state after a history of actions, applied in order from `st`. */
  function Replay(st: State, actions: seq<Action>): State
  {
    if |actions| == 0 then st else Reduce(Replay(st, actions[..|actions| - 1]), actions[|actions| - 1])
  }

  /** Every state the slice reaches from its initial state is consistent. */
  lemma {:induction false} ReplayConsistent(actions: seq<Action>)
    ensures Consistent(Replay(Initial, actions))
  {
    if |actions| > 0 {
      ReplayConsistent(actions[..|actions| - 1]);
    }
  }

  /** Logging out restores the initial state from any state, and a second
      logout changes nothing. */
  lemma LoggedOutIdempotent(st: State)
    ensures Reduce(st, UserLoggedOut) == Initial
    ensures Reduce(Reduce(st, UserLoggedOut), UserLoggedOut) == Reduce(st, UserLoggedOut)
  {
  }

  /** The session is authenticated exactly when the last handled action was a login. */
  lemma {:induction false} AuthenticatedIffLastLogin(actions: seq<Action>)
    ensures Replay(Initial, actions).isAuthenticated <==>
      exists i :: 0 <= i < |actions| && actions[i].UserLoggedIn?
        && forall j :: i < j < |actions| ==> actions[j].Unhandled?
  {
    if |actions| > 0 {
      var n := |actions| - 1;
      var init := actions[..n];
      AuthenticatedIffLastLogin(init);
      if actions[n].Unhandled? {
        if exists i :: 0 <= i < |init| && init[i].UserLoggedIn? && forall j :: i < j < |init| ==> init[j].Unhandled? {
          var i :| 0 <= i < |init| && init[i].UserLoggedIn? && forall j :: i < j < |init| ==> init[j].Unhandled?;
          assert actions[i].UserLoggedIn? && forall j :: i < j < |actions| ==> actions[j].Unhandled?;
        }
        if exists i :: 0 <= i < |actions| && actions[i].UserLoggedIn? && forall j :: i < j < |actions| ==> actions[j].Unhandled? {
          var i :| 0 <= i < |actions| && actions[i].UserLoggedIn? && forall j :: i < j < |actions| ==> actions[j].Unhandled?;
          assert i < n;
          assert init[i].UserLoggedIn? && forall j :: i < j < |init| ==> init[j].Unhandled?;
        }
      } else if actions[n].UserLoggedIn? {
        assert n < |actions| && actions[n].UserLoggedIn?;
      }
    }
  }
}

/** The client's course state: the listed courses, the selected course and a
    loading flag, each set by its own action. */
module CourseSlice {
  import opened Common
  import opened Records

  datatype State = State(courses: seq<Course>, selectedCourse: Option<Course>, isLoading: bool)

  datatype Action =
    | SetCourses(courses: seq<Course>)
    | SetSelectedCourse(course: Option<Course>)
    | ClearSelectedCourse
    | SetCourseLoading(loading: bool)
    | Unhandled

  const Initial: State := State([], None, false)

  /** Each setter changes only its own field, to the payload; clearing the
      selection changes only the selection. */
  function Reduce(st: State, a: Action): (r: State)
    ensures r.courses == (if a.SetCourses? then a.courses else st.courses)
    ensures r.selectedCourse ==
      (if a.SetSelectedCourse? then a.course else if a.ClearSelectedCourse? then None else st.selectedCourse)
    ensures r.isLoading == (if a.SetCourseLoading? then a.loading else st.isLoading)
  {
    match a
    case SetCourses(cs) => st.(courses := cs)
    case SetSelectedCourse(c) => st.(selectedCourse := c)
    case ClearSelectedCourse => st.(selectedCourse := None)
    case SetCourseLoading(b) => st.(isLoading := b)
    case Unhandled => st
  }

  /** Clearing after selecting is the same as clearing alone. */
  lemma SelectThenClear(st: State, c: Option<Course>)
    ensures Reduce(Reduce(st, SetSelectedCourse(c)), ClearSelectedCourse) == Reduce(st, ClearSelectedCourse)
  {
  }

  /** Setters of different fields commute. */
  lemma SettersCommute(st: State, cs: seq<Course>, c: Option<Course>, b: bool)
    ensures Reduce(Reduce(st, SetCourses(cs)), SetSelectedCourse(c)) == Reduce(Reduce(st, SetSelectedCourse(c)), SetCourses(cs))
    ensures Reduce(Reduce(st, SetCourses(cs)), SetCourseLoading(b)) == Reduce(Reduce(st, SetCourseLoading(b)), SetCourses(cs))
    ensures Reduce(Reduce(st, SetSelectedCourse(c)), SetCourseLoading(b)) == Reduce(Reduce(st, SetCourseLoading(b)), SetSelectedCourse(c))
  {
  }

  function Replay(st: State, actions: seq<Action>): State
  {
    if |actions| == 0 then st else Reduce(Replay(st, actions[..|actions| - 1]), actions[|actions| - 1])
  }

  /** The course list after a history: the payload of the last `setCourses`,
      or the starting list when there was none. */
  function LastCourses(start: seq<Course>, actions: seq<Action>): seq<Course>
  {
    if |actions| == 0 then start
    else if actions[|actions| - 1].SetCourses? then actions[|actions| - 1].courses
    else LastCourses(start, actions[..|actions| - 1])
  }

  /** The course list is whatever the last `setCourses` delivered; no other
      action touches it. */
  lemma {:induction false} ReplayCourses(st: State, actions: seq<Action>)
    ensures Replay(st, actions).courses == LastCourses(st.courses, actions)
  {
    if |actions| > 0 {
      ReplayCourses(st, actions[..|actions| - 1]);
    }
  }
}

/** The body of the `POST /api/users/:_id/exercises` handler. */
module Exercises {
  import opened Dates
  import opened Users

  /** The JSON body echoed after a successful save. */
  datatype ExerciseReply = ExerciseReply(id: string, username: string, date: string, duration: int, description: string)

  /** The date text stored with a new exercise: the supplied date when there
      is one, the current moment otherwise, formatted by `toDateString`. */
  function StoredDate(lib: DateLib, now: int, date: Option<string>): (shown: string)
    requires Accepted(lib, date)
    ensures Supplied(date) ==> exists t :: lib.parse(date.value) == Some(t) && shown == lib.toDateString(t)
    ensures !Supplied(date) ==> shown == lib.toDateString(now)
  {
    lib.toDateString(if Supplied(date) then lib.parse(date.value).value else now)
  }

  /** Validates a supplied date before anything else, then fetches the user,
      counts and appends the exercise, and asks the store to save the
      document; `saved` is the store's answer. `now` is `Date.now()`. */
  method AddExercise(lib: DateLib, now: int, id: string, duration: int, description: string,
                     date: Option<string>, lookup: Lookup, saved: bool)
    returns (resp: Reply<ExerciseReply>)
    modifies if lookup.Found? then {lookup.user} else {}
    ensures !Accepted(lib, date) ==> resp == Threw(CheckDate(lib, date.value).error)
    ensures !Accepted(lib, date) && lookup.Found? ==> unchanged(lookup.user)
    ensures Accepted(lib, date) && lookup.StoreError? ==> resp == Silent
    ensures Accepted(lib, date) && lookup.NotFound? ==> resp == NullUser
    ensures Accepted(lib, date) && lookup.Found? ==>
      var u := lookup.user;
      var e := Exercise(description, duration, StoredDate(lib, now, date));
      && u.count == old(u.count) + 1
      && u.log == old(u.log) + [e]
      && u.username == old(u.username)
      && resp == (if saved then Sent(ExerciseReply(id, u.username, e.date, duration, description)) else Silent)
    ensures lookup.Found? && old(lookup.user.Valid()) ==> lookup.user.Valid()
  {
    var stamp: int;
    if Supplied(date) {
      var verdict := CheckDate(lib, date.value);
      if verdict.Throw? {
        return Threw(verdict.error);
      }
      stamp := lib.parse(date.value).value;
    } else {
      stamp := now;
    }
    var shown := lib.toDateString(stamp);
    match lookup
    case StoreError =>
      resp := Silent;
    case NotFound =>
      resp := NullUser;
    case Found(u) =>
      var e := Exercise(description, duration, shown);
      u.Append(e);
      resp := if saved then Sent(ExerciseReply(id, u.username, shown, duration, description)) else Silent;
  }
}

/** The stored user record, the exercises embedded in it, and what a handler
    gets back from the store and sends back to the client. */
module Users {
  import opened Dates

  /** One logged activity. `date` is the stored `toDateString` text. */
  datatype Exercise = Exercise(description: string, duration: int, date: string)

  /** A fetched user document. The handlers change its fields in place. */
  class User {
    var username: string
    var count: int
    var log: seq<Exercise>

    /** The counter agrees with the log; the append keeps it so. */
    predicate Valid()
      reads this
    {
      count == |log|
    }

    /** A new record takes the schema defaults: count 0 and an empty log. */
    constructor (name: string)
      ensures username == name && count == 0 && log == []
      ensures Valid()
    {
      username := name;
      count := 0;
      log := [];
    }

    /** `data.count++` followed by `data.log.push(newExercise)`. */
    method Append(e: Exercise)
      modifies this
      ensures count == old(count) + 1
      ensures log == old(log) + [e]
      ensures username == old(username)
      ensures old(Valid()) ==> Valid()
    {
      count := count + 1;
      log := log + [e];
    }
  }

  /** What `User.findById` hands its callback: the document, `null` for an
      unknown identifier, or an error. */
  datatype Lookup = Found(user: User) | NotFound | StoreError

  /** How a request ends: an error thrown by the validator before the lookup,
      no response at all (a store error is only logged), a TypeError from
      dereferencing the `null` document, or a JSON body sent back. */
  datatype Reply<+T> = Threw(error: DateError) | Silent | NullUser | Sent(body: T)
}

/** The date validator `errorIfInvalidDate` and the pieces of JavaScript's
    `Date` it relies on, abstracted. */
module Dates {

  datatype Option<+T> = None | Some(value: T)

  /** JavaScript's `Date`, left uninterpreted. `parse` is `Date.parse`, which is
      also what `new Date(s)` does with a string `s`: `None` stands for NaN, the
      "Invalid Date". `toDateString` formats a moment (milliseconds since the
      epoch) as a calendar date without time of day, such as "Sun Jan 15 2023". */
  datatype DateLib = DateLib(parse: string -> Option<int>, toDateString: int -> string)

  /** What the validator throws. */
  datatype DateError =
    | IncorrectFormat  // new Error('Incorrect date format')
    | InvalidDate      // new Error('Invalid date')
    | ReferenceError   // the call of the undefined identifier `Errow`

  /** The validator either returns normally or throws. */
  datatype Verdict = Pass | Throw(error: DateError)

  /** JavaScript truthiness of an optional request field: an absent field and
      the empty string are both falsy. */
  predicate Supplied(v: Option<string>) {
    v.Some? && v.value != ""
  }

  /** `\d` in a JavaScript regular expression: an ASCII digit. */
  predicate IsDigit(c: char) {
    '0' <= c <= '9'
  }

  predicate AllDigits(s: string) {
    forall i :: 0 <= i < |s| ==> IsDigit(s[i])
  }

  /** The regular expression `^\d{4}-\d{2}-\d{2}$`, group by group. Without the
      multiline flag `$` matches only at the very end of the input. */
  predicate MatchesIsoPattern(s: string) {
    && |s| == 10
    && AllDigits(s[..4]) && s[4] == '-'
    && AllDigits(s[5..7]) && s[7] == '-'
    && AllDigits(s[8..])
  }

  /** The pattern, read position by position: exactly ten characters, a `-` at
      positions 4 and 7 and a digit everywhere else. */
  lemma IsoPatternByPosition(s: string)
    ensures MatchesIsoPattern(s) <==>
      && |s| == 10 && s[4] == '-' && s[7] == '-'
      && forall i :: 0 <= i < 10 && i != 4 && i != 7 ==> IsDigit(s[i])
  {
  }

  /** `errorIfInvalidDate` as written: a string that `Date` cannot parse is
      rejected as badly formatted when it misses the pattern, and otherwise
      reaches the misspelled `Errow`, which throws a ReferenceError. */
  function CheckDateAsWritten(lib: DateLib, s: string): (r: Verdict)
    ensures r.Pass? <==> lib.parse(s).Some?
    ensures lib.parse(s).None? && !MatchesIsoPattern(s) ==> r == Throw(IncorrectFormat)
    ensures lib.parse(s).None? && MatchesIsoPattern(s) ==> r == Throw(ReferenceError)
  {
    if lib.parse(s).None? then
      if !MatchesIsoPattern(s) then Throw(IncorrectFormat) else Throw(ReferenceError)
    else
      Pass
  }

  /** `errorIfInvalidDate` with `Errow` read as `Error`. It passes and throws
      on exactly the same strings as the code as written; the one difference
      is the error a well-formed but impossible date receives. */
  function CheckDate(lib: DateLib, s: string): (r: Verdict)
    ensures r.Pass? <==> lib.parse(s).Some?
    ensures lib.parse(s).None? && !MatchesIsoPattern(s) ==> r == Throw(IncorrectFormat)
    ensures lib.parse(s).None? && MatchesIsoPattern(s) ==> r == Throw(InvalidDate)
    ensures r.Pass? == CheckDateAsWritten(lib, s).Pass?
    ensures r != CheckDateAsWritten(lib, s) ==>
      CheckDateAsWritten(lib, s) == Throw(ReferenceError) && r == Throw(InvalidDate)
  {
    if lib.parse(s).None? then
      if !MatchesIsoPattern(s) then Throw(IncorrectFormat) else Throw(InvalidDate)
    else
      Pass
  }

  /** A well-formed date with month 13, which `Date` refuses, reaches the
      misspelled identifier instead of the intended "Invalid date" error. */
  lemma ImpossibleDateHitsMisspelling(lib: DateLib)
    requires lib.parse("2023-13-45") == None
    ensures CheckDateAsWritten(lib, "2023-13-45") == Throw(ReferenceError)
    ensures CheckDate(lib, "2023-13-45") == Throw(InvalidDate)
  {
  }

  /** A request field that is absent, empty, or passes the validator. */
  predicate Accepted(lib: DateLib, v: Option<string>) {
    Supplied(v) ==> CheckDate(lib, v.value).Pass?
  }
}

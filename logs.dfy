/** The `GET /api/users/:_id/logs` handler: optional inclusive date bounds,
    a filter that keeps insertion order, and a head limit. */
module Logs {
  import opened Dates
  import opened Users

  /** The bounds of a query, as timestamps: `Some(t)` when the bound was
      supplied and `Date.parse` gave `t`. */
  datatype Window = Window(from: Option<int>, to: Option<int>)

  /** The JSON body of a log query. */
  datatype LogReply = LogReply(username: string, count: int, id: string, log: seq<Exercise>)

  /** The window a request asks for once both of its bounds have passed the
      validator. */
  function RequestWindow(lib: DateLib, from: Option<string>, to: Option<string>): (w: Window)
    requires Accepted(lib, from) && Accepted(lib, to)
    ensures w.from.Some? <==> Supplied(from)
    ensures w.to.Some? <==> Supplied(to)
    ensures Supplied(from) ==> w.from == lib.parse(from.value)
    ensures Supplied(to) ==> w.to == lib.parse(to.value)
  {
    Window(if Supplied(from) then lib.parse(from.value) else None,
           if Supplied(to) then lib.parse(to.value) else None)
  }

  /** The reduce callback, with both bounds tested for having been supplied.
      An entry is dropped only when it lies strictly outside a bound; an
      entry whose date `Date.parse` rejects compares false with everything
      (NaN) and is always kept. */
  function Kept(lib: DateLib, w: Window, e: Exercise): (keep: bool)
    ensures keep <==> forall t :: lib.parse(e.date) == Some(t) ==>
      (w.from.Some? ==> w.from.value <= t) && (w.to.Some? ==> t <= w.to.value)
  {
    var t := lib.parse(e.date);
    if w.from.Some? && t.Some? && t.value < w.from.value then false
    else if w.to.Some? && t.Some? && t.value > w.to.value then false
    else true
  }

  /** The reduce callback as written: `if(from)` and `if(to)` test the numeric
      timestamp, so a bound whose timestamp is 0, the epoch, counts as absent. */
  function KeptAsWritten(lib: DateLib, w: Window, e: Exercise): (keep: bool)
    ensures w.from != Some(0) && w.to != Some(0) ==> keep == Kept(lib, w, e)
    ensures keep == Kept(lib, Window(if w.from == Some(0) then None else w.from,
                                     if w.to == Some(0) then None else w.to), e)
  {
    var t := lib.parse(e.date);
    if w.from.Some? && w.from.value != 0 && t.Some? && t.value < w.from.value then false
    else if w.to.Some? && w.to.value != 0 && t.Some? && t.value > w.to.value then false
    else true
  }

  function KeepFn(lib: DateLib, w: Window): Exercise -> bool {
    e => Kept(lib, w, e)
  }

  function KeepAsWrittenFn(lib: DateLib, w: Window): Exercise -> bool {
    e => KeptAsWritten(lib, w, e)
  }

  /** The entries of `log` that `keep` accepts, in their original order. */
  function Filter(keep: Exercise -> bool, log: seq<Exercise>): (r: seq<Exercise>)
    ensures |r| <= |log|
  {
    if log == [] then []
    else Filter(keep, log[..|log| - 1]) + (if keep(log[|log| - 1]) then [log[|log| - 1]] else [])
  }

  /** `a` is `b` with some entries removed and the rest in their order. */
  ghost predicate IsSubsequence(a: seq<Exercise>, b: seq<Exercise>)
    decreases |b|
  {
    if a == [] then true
    else if b == [] then false
    else (a[|a| - 1] == b[|b| - 1] && IsSubsequence(a[..|a| - 1], b[..|b| - 1]))
         || IsSubsequence(a, b[..|b| - 1])
  }

  /** The filtered log keeps the insertion order of the stored log. */
  lemma {:induction false} FilterIsSubsequence(keep: Exercise -> bool, log: seq<Exercise>)
    ensures IsSubsequence(Filter(keep, log), log)
    decreases |log|
  {
    if log != [] {
      var init, last := log[..|log| - 1], log[|log| - 1];
      FilterIsSubsequence(keep, init);
      var f := Filter(keep, init);
      if keep(last) {
        assert Filter(keep, log) == f + [last];
        assert (f + [last])[..|f|] == f;
      } else {
        assert Filter(keep, log) == f;
      }
    }
  }

  /** An entry is in the filtered log exactly when it is in the stored log and
      the filter accepts it, and it occurs there as often as in the stored log. */
  lemma {:induction false} FilterMembership(keep: Exercise -> bool, log: seq<Exercise>)
    ensures forall e :: e in Filter(keep, log) <==> e in log && keep(e)
    ensures forall e :: multiset(Filter(keep, log))[e] == if keep(e) then multiset(log)[e] else 0
    decreases |log|
  {
    if log != [] {
      var init, last := log[..|log| - 1], log[|log| - 1];
      FilterMembership(keep, init);
      assert log == init + [last];
      var tail := if keep(last) then [last] else [];
      assert Filter(keep, log) == Filter(keep, init) + tail;
      assert multiset(Filter(keep, log)) == multiset(Filter(keep, init)) + multiset(tail);
      assert multiset(log) == multiset(init) + multiset{last};
    }
  }

  /** A filter that accepts every entry returns the log unchanged. */
  lemma {:induction false} FilterKeepsAll(keep: Exercise -> bool, log: seq<Exercise>)
    requires forall i :: 0 <= i < |log| ==> keep(log[i])
    ensures Filter(keep, log) == log
    decreases |log|
  {
    if log != [] {
      FilterKeepsAll(keep, log[..|log| - 1]);
    }
  }

  /** Filters that agree on every entry of the log return the same entries. */
  lemma {:induction false} FilterAgrees(k1: Exercise -> bool, k2: Exercise -> bool, log: seq<Exercise>)
    requires forall i :: 0 <= i < |log| ==> k1(log[i]) == k2(log[i])
    ensures Filter(k1, log) == Filter(k2, log)
    decreases |log|
  {
    if log != [] {
      FilterAgrees(k1, k2, log[..|log| - 1]);
    }
  }

  /** With neither `from` nor `to` every entry is kept. */
  lemma {:induction false} NoBoundsKeepsEverything(lib: DateLib, log: seq<Exercise>)
    ensures Filter(KeepFn(lib, Window(None, None)), log) == log
  {
    FilterKeepsAll(KeepFn(lib, Window(None, None)), log);
  }

  /** The query's filter keeps exactly the stored entries inside the inclusive
      window, each as often as it is stored, in their stored order. */
  lemma WindowFilter(lib: DateLib, w: Window, log: seq<Exercise>)
    ensures IsSubsequence(Filter(KeepFn(lib, w), log), log)
    ensures forall e :: e in Filter(KeepFn(lib, w), log) <==> e in log && Kept(lib, w, e)
    ensures forall e ::
      multiset(Filter(KeepFn(lib, w), log))[e] == if Kept(lib, w, e) then multiset(log)[e] else 0
  {
    FilterIsSubsequence(KeepFn(lib, w), log);
    FilterMembership(KeepFn(lib, w), log);
  }

  /** The code as written agrees with the corrected filter unless a bound is
      the epoch. */
  lemma {:induction false} AsWrittenAgreesAwayFromEpoch(lib: DateLib, w: Window, log: seq<Exercise>)
    requires w.from != Some(0) && w.to != Some(0)
    ensures Filter(KeepAsWrittenFn(lib, w), log) == Filter(KeepFn(lib, w), log)
  {
    FilterAgrees(KeepAsWrittenFn(lib, w), KeepFn(lib, w), log);
  }

  /** `to=1970-01-01` parses to 0, which the code as written treats as no upper
      bound: an exercise dated after the epoch is returned although it lies
      after `to`. The corrected filter drops it. */
  lemma EpochUpperBoundIgnored(lib: DateLib, e: Exercise)
    requires lib.parse("1970-01-01") == Some(0)
    requires lib.parse(e.date).Some? && lib.parse(e.date).value > 0
    ensures RequestWindow(lib, None, Some("1970-01-01")) == Window(None, Some(0))
    ensures Filter(KeepAsWrittenFn(lib, Window(None, Some(0))), [e]) == [e]
    ensures Filter(KeepFn(lib, Window(None, Some(0))), [e]) == []
  {
  }

  /** The reduce of the handler: walks the stored log and pushes every entry
      inside the window onto an accumulator. */
  method FilterLog(lib: DateLib, w: Window, log: seq<Exercise>) returns (kept: seq<Exercise>)
    ensures kept == Filter(KeepFn(lib, w), log)
  {
    kept := [];
    for i := 0 to |log|
      invariant kept == Filter(KeepFn(lib, w), log[..i])
    {
      assert log[..i + 1][..i] == log[..i];
      if Kept(lib, w, log[i]) {
        kept := kept + [log[i]];
      }
    }
    assert log[..|log|] == log;
  }

  /** The end index `Array.prototype.slice(0, limit)` uses on a sequence of
      length `n`: a negative limit counts back from the end. */
  function SliceEnd(limit: int, n: nat): (k: nat)
    ensures k <= n
  {
    if limit < 0 then (if n + limit < 0 then 0 else n + limit)
    else if limit < n then limit else n
  }

  /** `log.slice(0, limit)`, with a missing or empty `limit` (replaced by
      `Number.MAX_VALUE`) as `None`. */
  function Truncate(log: seq<Exercise>, limit: Option<int>): (r: seq<Exercise>)
    ensures |r| <= |log| && r == log[..|r|]
    ensures limit.None? ==> r == log
    ensures limit.Some? && 0 <= limit.value ==> |r| == if limit.value < |log| then limit.value else |log|
    ensures limit.Some? && limit.value < 0 ==> |r| == if |log| + limit.value < 0 then 0 else |log| + limit.value
  {
    match limit
    case None => log
    case Some(k) => log[..SliceEnd(k, |log|)]
  }

  /** A prefix of a subsequence is a subsequence. */
  lemma {:induction false} PrefixOfSubsequence(a: seq<Exercise>, b: seq<Exercise>, n: nat)
    requires n <= |a| && IsSubsequence(a, b)
    ensures IsSubsequence(a[..n], b)
    decreases |b|, |a|
  {
    if n < |a| && b != [] {
      var a', b' := a[..|a| - 1], b[..|b| - 1];
      if a[|a| - 1] == b[|b| - 1] && IsSubsequence(a', b') {
        PrefixOfSubsequence(a', b', n);
        assert a'[..n] == a[..n];
        SubsequenceOfInit(a[..n], b);
      } else {
        PrefixOfSubsequence(a, b', n);
        SubsequenceOfInit(a[..n], b);
      }
    } else if n == |a| {
      assert a[..n] == a;
    }
  }

  /** A subsequence of all but the last entry is a subsequence of the whole. */
  lemma {:induction false} SubsequenceOfInit(a: seq<Exercise>, b: seq<Exercise>)
    requires b != [] && IsSubsequence(a, b[..|b| - 1])
    ensures IsSubsequence(a, b)
  {
  }

  /** What a log query returns: the first entries, in stored order, of the
      stored entries inside the window, as many as the limit allows. */
  lemma QueryResult(lib: DateLib, w: Window, log: seq<Exercise>, limit: Option<int>)
    ensures var r := Truncate(Filter(KeepFn(lib, w), log), limit);
      && IsSubsequence(r, log)
      && (forall e :: e in r ==> e in log && Kept(lib, w, e))
      && (limit.None? ==> forall e :: e in log && Kept(lib, w, e) ==> e in r)
      && (limit.None? ==> forall e :: multiset(r)[e] == if Kept(lib, w, e) then multiset(log)[e] else 0)
  {
    var f := Filter(KeepFn(lib, w), log);
    var r := Truncate(f, limit);
    WindowFilter(lib, w, log);
    PrefixOfSubsequence(f, log, |r|);
    assert f[..|r|] == r;
    forall e | e in r ensures e in f {
      assert r == f[..|r|];
    }
  }

  /** The handler: validates `from`, then `to`, before the lookup; filters the
      fetched log by the window; returns the user's stored `count`, not the
      length of the filtered log, and at most `limit` entries. */
  method GetLogs(lib: DateLib, id: string, from: Option<string>, to: Option<string>,
                 limit: Option<int>, lookup: Lookup)
    returns (resp: Reply<LogReply>)
    ensures !Accepted(lib, from) ==> resp == Threw(CheckDate(lib, from.value).error)
    ensures Accepted(lib, from) && !Accepted(lib, to) ==> resp == Threw(CheckDate(lib, to.value).error)
    ensures Accepted(lib, from) && Accepted(lib, to) ==>
      match lookup
      case StoreError => resp == Silent
      case NotFound => resp == NullUser
      case Found(u) =>
        && resp == Sent(LogReply(u.username, u.count, id,
                                 Truncate(Filter(KeepFn(lib, RequestWindow(lib, from, to)), u.log), limit)))
        && (u.Valid() ==> resp.body.count == |u.log|)
  {
    if Supplied(from) {
      var verdict := CheckDate(lib, from.value);
      if verdict.Throw? {
        return Threw(verdict.error);
      }
    }
    if Supplied(to) {
      var verdict := CheckDate(lib, to.value);
      if verdict.Throw? {
        return Threw(verdict.error);
      }
    }
    var w := RequestWindow(lib, from, to);
    match lookup
    case StoreError =>
      resp := Silent;
    case NotFound =>
      resp := NullUser;
    case Found(u) =>
      var kept := FilterLog(lib, w, u.log);
      resp := Sent(LogReply(u.username, u.count, id, Truncate(kept, limit)));
  }
}

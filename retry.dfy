/**
 * The token check and refresh-and-retry loop that every protected handler
 * of backend/main.py repeats (projects 321-339, jobs 409-427, strings
 * 484-509, job files 563-582, translations 652-671).
 *
 * The platform is an oracle: the k-th protected call answers `calls[k]`
 * and the k-th refresh answers `refreshes[k]`. What the loop did is
 * returned as a trace of events.
 */
module Retry {
  import opened Common
  import opened Credentials

  /** What one protected call does: return a payload or raise with a message. */
  datatype CallOutcome<T> = CallOk(payload: T) | CallFailed(message: string)

  /**
   * What one call of `refresh_smartling_token` does: return the new token
   * triple (`clock` is the time it reads) or raise with a message.
   */
  datatype RefreshOutcome =
    | Refreshed(accessToken: Option<string>, refreshToken: Option<string>, expiresIn: Option<int>, clock: int)
    | RefreshFailed(message: string)

  /**
   * One step of the loop: a refresh (`afterFailure` when it is the one in
   * the `except` branch) or a protected call made with `token`.
   */
  datatype Event<T> =
    | Refresh(reply: RefreshOutcome, afterFailure: bool)
    | Call(token: string, result: CallOutcome<T>)

  /** What the handler answers. */
  datatype Response<T> =
    | Ok(payload: T)                // the operation's result
    | Unauthenticated               // the JSON 401 "No valid Smartling access token"
    | ServerError(message: string)  // the JSON 500 carrying `str(e)`
    | Escaped(error: string)        // an exception raised out of the handler itself
    | FellThrough                   // the loop ended without a return: the handler returns None

  /**
   * How the `except` branch calls the refresher. The handlers call
   * `refresh_smartling_token(refresh_token)` with one of its four
   * arguments, which raises a TypeError; `WithCredentials` is the call
   * with all four that the `try` branch makes.
   */
  datatype ExceptRefresh = MissingArguments | WithCredentials

  const MISSING_ARGUMENTS_ERROR :=
    "refresh_smartling_token() missing 3 required positional arguments: 'user_id', 'secret', and 'DB_PATH'"

  /** The test `"unauthorized" in str(e) or "401" in str(e)`. */
  predicate MentionsUnauthorized(message: string)
  {
    Contains(message, "unauthorized") || Contains(message, "401")
  }

  /** The text of the exception the event raised, if it raised one. */
  function Failure<T>(e: Event<T>): Option<string>
  {
    match e
    case Refresh(r, _) => if r.RefreshFailed? then Some(r.message) else None
    case Call(_, c) => if c.CallFailed? then Some(c.message) else None
  }

  /** The event raised an exception whose text passes that test. */
  predicate FailedUnauthorized<T>(e: Event<T>)
  {
    Failure(e).Some? && MentionsUnauthorized(Failure(e).value)
  }

  predicate IsRefreshed<T>(e: Event<T>)
  {
    e.Refresh? && e.reply.Refreshed?
  }

  /** Some refresh in `trace` returned, i.e. `tried_refresh` was set. */
  predicate AnyRefreshed<T>(trace: seq<Event<T>>)
  {
    trace != [] && (AnyRefreshed(trace[..|trace| - 1]) || IsRefreshed(trace[|trace| - 1]))
  }

  /** Every protected call in `trace` was made with a non-empty token. */
  predicate CallsHaveTokens<T>(trace: seq<Event<T>>)
  {
    trace == [] || (CallsHaveTokens(trace[..|trace| - 1]) && (trace[|trace| - 1].Call? ==> trace[|trace| - 1].token != ""))
  }

  /**
   * Every `except`-branch refresh in `trace` directly follows a failure
   * whose text mentions "unauthorized" or "401", is made with a truthy
   * refresh token, and comes before any refresh returned.
   */
  predicate RetriesJustified<T>(trace: seq<Event<T>>, refreshToken: Option<string>)
  {
    trace == [] ||
    var prefix := trace[..|trace| - 1];
    var last := trace[|trace| - 1];
    && RetriesJustified(prefix, refreshToken)
    && (last.Refresh? && last.afterFailure ==>
          prefix != [] && FailedUnauthorized(prefix[|prefix| - 1]) && Truthy(refreshToken) && !AnyRefreshed(prefix))
  }

  /** No `except`-branch refresh happened in `trace`. */
  predicate NoRetries<T>(trace: seq<Event<T>>)
  {
    trace == [] || (NoRetries(trace[..|trace| - 1]) && !(trace[|trace| - 1].Refresh? && trace[|trace| - 1].afterFailure))
  }

  /** The outcomes of the protected calls in `trace`, in order. */
  function CallsIn<T>(trace: seq<Event<T>>): seq<CallOutcome<T>>
  {
    if trace == [] then []
    else
      var last := trace[|trace| - 1];
      CallsIn(trace[..|trace| - 1]) + (if last.Call? then [last.result] else [])
  }

  /** The outcomes of the refreshes in `trace`, in order. */
  function RefreshesIn<T>(trace: seq<Event<T>>): seq<RefreshOutcome>
  {
    if trace == [] then []
    else
      var last := trace[|trace| - 1];
      RefreshesIn(trace[..|trace| - 1]) + (if last.Refresh? then [last.reply] else [])
  }

  /** The last event of `trace` is a protected call that returned. */
  predicate SucceededLast<T>(trace: seq<Event<T>>)
  {
    trace != [] && trace[|trace| - 1].Call? && trace[|trace| - 1].result.CallOk?
  }

  /** What appending one event does to the summaries above. */
  lemma {:induction false} AppendEvent<T>(trace: seq<Event<T>>, e: Event<T>, refreshToken: Option<string>)
    ensures CallsIn(trace + [e]) == CallsIn(trace) + (if e.Call? then [e.result] else [])
    ensures RefreshesIn(trace + [e]) == RefreshesIn(trace) + (if e.Refresh? then [e.reply] else [])
    ensures AnyRefreshed(trace + [e]) <==> AnyRefreshed(trace) || IsRefreshed(e)
    ensures CallsHaveTokens(trace + [e]) <==> CallsHaveTokens(trace) && (e.Call? ==> e.token != "")
    ensures NoRetries(trace + [e]) <==> NoRetries(trace) && !(e.Refresh? && e.afterFailure)
    ensures RetriesJustified(trace + [e], refreshToken) <==>
              RetriesJustified(trace, refreshToken) &&
              (e.Refresh? && e.afterFailure ==>
                 trace != [] && FailedUnauthorized(trace[|trace| - 1]) && Truthy(refreshToken) && !AnyRefreshed(trace))
  {
    assert (trace + [e])[..|trace|] == trace;
  }

  /** The loop's variables between two attempts. */
  datatype LoopState<T> = LoopState(
    token: Option<string>,     // `token`
    triedRefresh: bool,        // `tried_refresh`
    nCalls: nat,               // protected calls made so far
    nRefreshes: nat,           // refreshes made so far
    trace: seq<Event<T>>,
    response: Response<T>)     // `FellThrough` while nothing has been returned

  /** The state before `for attempt in range(2)`: the expiry test has been applied. */
  function Start<T>(accessToken: Option<string>, tokenExpires: Option<int>, now: int): LoopState<T>
  {
    LoopState(UsableToken(accessToken, tokenExpires, now), false, 0, 0, [], FellThrough)
  }

  /** `if not token: return 401`, then `return await operation(token)`. */
  function CallBlock<T>(s: LoopState<T>, calls: seq<CallOutcome<T>>): (r: (LoopState<T>, Option<string>))
    requires s.nCalls < |calls|
    ensures r.0.nRefreshes == s.nRefreshes && s.nCalls <= r.0.nCalls <= s.nCalls + 1
    ensures r.0.triedRefresh == s.triedRefresh && r.0.token == s.token
  {
    if !Truthy(s.token) then (s.(response := Unauthenticated), None)
    else
      var c := calls[s.nCalls];
      var s1 := s.(nCalls := s.nCalls + 1, trace := s.trace + [Call(s.token.value, c)]);
      match c
      case CallOk(p) => (s1.(response := Ok(p)), None)
      case CallFailed(m) => (s1, Some(m))
  }

  /**
   * The `try` block: refresh when there is no token but a refresh token,
   * then call. Also returns the text of the exception it raised, if any.
   */
  function TryBlock<T>(s: LoopState<T>, refreshToken: Option<string>, calls: seq<CallOutcome<T>>,
                       refreshes: seq<RefreshOutcome>): (r: (LoopState<T>, Option<string>))
    requires s.nCalls < |calls| && s.nRefreshes < |refreshes|
    ensures s.nRefreshes <= r.0.nRefreshes <= s.nRefreshes + 1 && s.nCalls <= r.0.nCalls <= s.nCalls + 1
    ensures s.triedRefresh ==> r.0.triedRefresh
    ensures r.1.Some? ==> r.0.response == s.response
  {
    if !Truthy(s.token) && Truthy(refreshToken) then
      var r := refreshes[s.nRefreshes];
      var s1 := s.(nRefreshes := s.nRefreshes + 1, trace := s.trace + [Refresh(r, false)]);
      match r
      case RefreshFailed(m) => (s1, Some(m))
      case Refreshed(access, _, _, _) => CallBlock(s1.(token := access, triedRefresh := true), calls)
    else CallBlock(s, calls)
  }

  /**
   * The `except` block for an exception with text `message`: refresh and go
   * round again when no refresh has returned yet, there is a refresh token
   * and the text mentions "unauthorized" or "401"; otherwise answer 500.
   */
  function ExceptBlock<T>(s: LoopState<T>, message: string, refreshToken: Option<string>,
                          refreshes: seq<RefreshOutcome>, exceptRefresh: ExceptRefresh): (r: LoopState<T>)
    requires s.nRefreshes < |refreshes|
    ensures r.nCalls == s.nCalls && s.nRefreshes <= r.nRefreshes <= s.nRefreshes + 1
    ensures s.triedRefresh ==> r == s.(response := ServerError(message))
  {
    if !s.triedRefresh && Truthy(refreshToken) && MentionsUnauthorized(message) then
      match exceptRefresh
      case MissingArguments => s.(response := Escaped(MISSING_ARGUMENTS_ERROR))
      case WithCredentials =>
        var r := refreshes[s.nRefreshes];
        var s1 := s.(nRefreshes := s.nRefreshes + 1, trace := s.trace + [Refresh(r, true)]);
        match r
        case Refreshed(access, _, _, _) => s1.(token := access, triedRefresh := true)
        case RefreshFailed(m) => s1.(response := Escaped(m))
    else s.(response := ServerError(message))
  }

  /** One iteration of `for attempt in range(2)`. */
  function Attempt<T>(s: LoopState<T>, refreshToken: Option<string>, calls: seq<CallOutcome<T>>,
                      refreshes: seq<RefreshOutcome>, exceptRefresh: ExceptRefresh): (r: LoopState<T>)
    requires s.nCalls < |calls| && s.nRefreshes + 2 <= |refreshes|
    ensures s.nCalls <= r.nCalls <= s.nCalls + 1 && s.nRefreshes <= r.nRefreshes <= s.nRefreshes + 2
  {
    var (s1, failure) := TryBlock(s, refreshToken, calls, refreshes);
    if failure.None? then s1 else ExceptBlock(s1, failure.value, refreshToken, refreshes, exceptRefresh)
  }

  /** The iterations from `attempt` on, stopping at the first `return`. */
  function Finish<T>(attempt: nat, s: LoopState<T>, refreshToken: Option<string>, calls: seq<CallOutcome<T>>,
                     refreshes: seq<RefreshOutcome>, exceptRefresh: ExceptRefresh): (r: LoopState<T>)
    requires attempt <= 2
    requires s.nCalls + (2 - attempt) <= |calls| && s.nRefreshes + 2 * (2 - attempt) <= |refreshes|
    decreases 2 - attempt
  {
    if attempt == 2 || !s.response.FellThrough? then s
    else Finish(attempt + 1, Attempt(s, refreshToken, calls, refreshes, exceptRefresh),
                refreshToken, calls, refreshes, exceptRefresh)
  }

  /** The whole loop, from the stored tokens and the clock. */
  function Run<T>(accessToken: Option<string>, refreshToken: Option<string>, tokenExpires: Option<int>, now: int,
                  calls: seq<CallOutcome<T>>, refreshes: seq<RefreshOutcome>, exceptRefresh: ExceptRefresh): LoopState<T>
    requires |calls| >= 2 && |refreshes| >= 4
  {
    Finish(0, Start(accessToken, tokenExpires, now), refreshToken, calls, refreshes, exceptRefresh)
  }

  /**
   * The loop `for attempt in range(2)` of the protected handlers, starting
   * from the stored tokens and the clock `now`.
   */
  method FetchWithRetry<T>(accessToken: Option<string>, refreshToken: Option<string>, tokenExpires: Option<int>,
                           now: int, calls: seq<CallOutcome<T>>, refreshes: seq<RefreshOutcome>,
                           exceptRefresh: ExceptRefresh)
    returns (response: Response<T>, trace: seq<Event<T>>)
    requires |calls| >= 2 && |refreshes| >= 4
    ensures var r := Run(accessToken, refreshToken, tokenExpires, now, calls, refreshes, exceptRefresh);
            response == r.response && trace == r.trace
  {
    var token := UsableToken(accessToken, tokenExpires, now);
    var triedRefresh := false;
    var nCalls, nRefreshes := 0, 0;
    trace := [];
    response := FellThrough;
    var attempt := 0;
    while attempt < 2 && response.FellThrough?
      invariant 0 <= attempt <= 2
      invariant nCalls + (2 - attempt) <= |calls| && nRefreshes + 2 * (2 - attempt) <= |refreshes|
      invariant Finish(attempt, LoopState(token, triedRefresh, nCalls, nRefreshes, trace, response),
                       refreshToken, calls, refreshes, exceptRefresh)
                == Run(accessToken, refreshToken, tokenExpires, now, calls, refreshes, exceptRefresh)
    {
      ghost var before := LoopState(token, triedRefresh, nCalls, nRefreshes, trace, response);
      // try:
      var failure: Option<string> := None;
      if !Truthy(token) && Truthy(refreshToken) {
        var r := refreshes[nRefreshes];
        nRefreshes := nRefreshes + 1;
        trace := trace + [Refresh(r, false)];
        if r.Refreshed? {
          token := r.accessToken;
          triedRefresh := true;
        } else {
          failure := Some(r.message);
        }
      }
      if failure.None? {
        if !Truthy(token) {
          response := Unauthenticated;
        } else {
          var c := calls[nCalls];
          nCalls := nCalls + 1;
          trace := trace + [Call(token.value, c)];
          if c.CallOk? {
            response := Ok(c.payload);
          } else {
            failure := Some(c.message);
          }
        }
      }
      // except Exception as e:
      if failure.Some? {
        if !triedRefresh && Truthy(refreshToken) && MentionsUnauthorized(failure.value) {
          match exceptRefresh
          case MissingArguments =>
            response := Escaped(MISSING_ARGUMENTS_ERROR);
          case WithCredentials =>
            var r := refreshes[nRefreshes];
            nRefreshes := nRefreshes + 1;
            trace := trace + [Refresh(r, true)];
            if r.Refreshed? {
              token := r.accessToken;
              triedRefresh := true;
            } else {
              response := Escaped(r.message);
            }
        } else {
          response := ServerError(failure.value);
        }
      }
      assert LoopState(token, triedRefresh, nCalls, nRefreshes, trace, response)
             == Attempt(before, refreshToken, calls, refreshes, exceptRefresh);
      attempt := attempt + 1;
    }
  }

  /**
   * What holds of the loop's variables between attempts: the trace used
   * the oracles in order, `tried_refresh` records whether a refresh
   * returned, every call had a token, every `except` refresh was justified
   * (and there was none when that refresh cannot be made), and the answer
   * is a payload exactly when the last event was a call that returned it.
   */
  ghost predicate Consistent<T>(s: LoopState<T>, refreshToken: Option<string>, calls: seq<CallOutcome<T>>,
                                refreshes: seq<RefreshOutcome>, exceptRefresh: ExceptRefresh)
  {
    && s.nCalls <= |calls| && s.nRefreshes <= |refreshes|
    && CallsIn(s.trace) == calls[..s.nCalls]
    && RefreshesIn(s.trace) == refreshes[..s.nRefreshes]
    && (s.triedRefresh <==> AnyRefreshed(s.trace))
    && CallsHaveTokens(s.trace)
    && RetriesJustified(s.trace, refreshToken)
    && (exceptRefresh == MissingArguments ==> NoRetries(s.trace))
    && (s.response.Ok? <==> SucceededLast(s.trace))
    && (s.response.Ok? ==> s.response.payload == s.trace[|s.trace| - 1].result.payload)
  }

  lemma CallBlockConsistent<T>(s: LoopState<T>, refreshToken: Option<string>, calls: seq<CallOutcome<T>>,
                               refreshes: seq<RefreshOutcome>, exceptRefresh: ExceptRefresh)
    requires s.nCalls < |calls| && s.response.FellThrough?
    requires Consistent(s, refreshToken, calls, refreshes, exceptRefresh)
    ensures var (s1, failure) := CallBlock(s, calls);
            && Consistent(s1, refreshToken, calls, refreshes, exceptRefresh)
            && (failure.Some? ==> s1.trace != [] && Failure(s1.trace[|s1.trace| - 1]) == failure
                                  && s1.response.FellThrough?)
  {
    if Truthy(s.token) {
      var e := Call(s.token.value, calls[s.nCalls]);
      AppendEvent(s.trace, e, refreshToken);
      assert calls[..s.nCalls + 1] == calls[..s.nCalls] + [calls[s.nCalls]];
    }
  }

  /** Recording the next refresh keeps the invariant, when an `except` refresh is justified. */
  lemma RefreshConsistent<T>(s: LoopState<T>, afterFailure: bool, refreshToken: Option<string>,
                             calls: seq<CallOutcome<T>>, refreshes: seq<RefreshOutcome>, exceptRefresh: ExceptRefresh)
    requires s.nRefreshes < |refreshes| && s.response.FellThrough?
    requires afterFailure ==> && exceptRefresh == WithCredentials && s.trace != []
                              && FailedUnauthorized(s.trace[|s.trace| - 1]) && Truthy(refreshToken) && !s.triedRefresh
    requires Consistent(s, refreshToken, calls, refreshes, exceptRefresh)
    ensures var r := refreshes[s.nRefreshes];
            Consistent(s.(nRefreshes := s.nRefreshes + 1, trace := s.trace + [Refresh(r, afterFailure)],
                          triedRefresh := s.triedRefresh || r.Refreshed?),
                       refreshToken, calls, refreshes, exceptRefresh)
  {
    var r := refreshes[s.nRefreshes];
    AppendEvent(s.trace, Refresh(r, afterFailure), refreshToken);
    assert refreshes[..s.nRefreshes + 1] == refreshes[..s.nRefreshes] + [r];
  }

  lemma TryBlockConsistent<T>(s: LoopState<T>, refreshToken: Option<string>, calls: seq<CallOutcome<T>>,
                              refreshes: seq<RefreshOutcome>, exceptRefresh: ExceptRefresh)
    requires s.nCalls < |calls| && s.nRefreshes < |refreshes| && s.response.FellThrough?
    requires Consistent(s, refreshToken, calls, refreshes, exceptRefresh)
    ensures var (s1, failure) := TryBlock(s, refreshToken, calls, refreshes);
            && Consistent(s1, refreshToken, calls, refreshes, exceptRefresh)
            && (failure.Some? ==> s1.trace != [] && Failure(s1.trace[|s1.trace| - 1]) == failure
                                  && s1.response.FellThrough?)
  {
    if !Truthy(s.token) && Truthy(refreshToken) {
      var r := refreshes[s.nRefreshes];
      RefreshConsistent(s, false, refreshToken, calls, refreshes, exceptRefresh);
      var s1 := s.(nRefreshes := s.nRefreshes + 1, trace := s.trace + [Refresh(r, false)],
                   triedRefresh := s.triedRefresh || r.Refreshed?);
      if r.Refreshed? {
        CallBlockConsistent(s1.(token := r.accessToken), refreshToken, calls, refreshes, exceptRefresh);
      }
    } else {
      CallBlockConsistent(s, refreshToken, calls, refreshes, exceptRefresh);
    }
  }

  lemma ExceptBlockConsistent<T>(s: LoopState<T>, message: string, refreshToken: Option<string>,
                                 calls: seq<CallOutcome<T>>, refreshes: seq<RefreshOutcome>,
                                 exceptRefresh: ExceptRefresh)
    requires s.nRefreshes < |refreshes| && s.response.FellThrough?
    requires s.trace != [] && Failure(s.trace[|s.trace| - 1]) == Some(message)
    requires Consistent(s, refreshToken, calls, refreshes, exceptRefresh)
    ensures Consistent(ExceptBlock(s, message, refreshToken, refreshes, exceptRefresh),
                       refreshToken, calls, refreshes, exceptRefresh)
  {
    if !s.triedRefresh && Truthy(refreshToken) && MentionsUnauthorized(message) && exceptRefresh == WithCredentials {
      RefreshConsistent(s, true, refreshToken, calls, refreshes, exceptRefresh);
    }
  }

  lemma AttemptConsistent<T>(s: LoopState<T>, refreshToken: Option<string>, calls: seq<CallOutcome<T>>,
                             refreshes: seq<RefreshOutcome>, exceptRefresh: ExceptRefresh)
    requires s.nCalls < |calls| && s.nRefreshes + 2 <= |refreshes| && s.response.FellThrough?
    requires Consistent(s, refreshToken, calls, refreshes, exceptRefresh)
    ensures Consistent(Attempt(s, refreshToken, calls, refreshes, exceptRefresh),
                       refreshToken, calls, refreshes, exceptRefresh)
  {
    TryBlockConsistent(s, refreshToken, calls, refreshes, exceptRefresh);
    var (s1, failure) := TryBlock(s, refreshToken, calls, refreshes);
    if failure.Some? {
      ExceptBlockConsistent(s1, failure.value, refreshToken, calls, refreshes, exceptRefresh);
    }
  }

  lemma {:induction false} FinishConsistent<T>(attempt: nat, s: LoopState<T>, refreshToken: Option<string>,
                                               calls: seq<CallOutcome<T>>, refreshes: seq<RefreshOutcome>,
                                               exceptRefresh: ExceptRefresh)
    requires attempt <= 2
    requires s.nCalls + (2 - attempt) <= |calls| && s.nRefreshes + 2 * (2 - attempt) <= |refreshes|
    requires Consistent(s, refreshToken, calls, refreshes, exceptRefresh)
    ensures Consistent(Finish(attempt, s, refreshToken, calls, refreshes, exceptRefresh),
                       refreshToken, calls, refreshes, exceptRefresh)
    decreases 2 - attempt
  {
    if attempt < 2 && s.response.FellThrough? {
      AttemptConsistent(s, refreshToken, calls, refreshes, exceptRefresh);
      FinishConsistent(attempt + 1, Attempt(s, refreshToken, calls, refreshes, exceptRefresh),
                       refreshToken, calls, refreshes, exceptRefresh);
    }
  }

  /**
   * Whatever the platform answers: the calls and refreshes the loop made
   * are the first ones of the oracles, every call carried a non-empty
   * token, every `except` refresh followed an "unauthorized"/"401" failure
   * with a truthy refresh token before any refresh had returned, the
   * handler answers a payload exactly when its last event is a call that
   * returned that payload, and as written no `except` refresh is made.
   */
  lemma RunConsistent<T>(accessToken: Option<string>, refreshToken: Option<string>, tokenExpires: Option<int>,
                         now: int, calls: seq<CallOutcome<T>>, refreshes: seq<RefreshOutcome>,
                         exceptRefresh: ExceptRefresh)
    requires |calls| >= 2 && |refreshes| >= 4
    ensures var r := Run(accessToken, refreshToken, tokenExpires, now, calls, refreshes, exceptRefresh);
            && CallsIn(r.trace) <= calls && RefreshesIn(r.trace) <= refreshes
            && CallsHaveTokens(r.trace)
            && RetriesJustified(r.trace, refreshToken)
            && (exceptRefresh == MissingArguments ==> NoRetries(r.trace))
            && (r.response.Ok? <==> SucceededLast(r.trace))
            && (r.response.Ok? ==> r.response.payload == r.trace[|r.trace| - 1].result.payload)
  {
    var s := Start<T>(accessToken, tokenExpires, now);
    assert Consistent(s, refreshToken, calls, refreshes, exceptRefresh);
    FinishConsistent(0, s, refreshToken, calls, refreshes, exceptRefresh);
  }

  /** How one attempt can end, from a state where nothing has been returned yet. */
  lemma AttemptShape<T>(s: LoopState<T>, refreshToken: Option<string>, calls: seq<CallOutcome<T>>,
                        refreshes: seq<RefreshOutcome>, exceptRefresh: ExceptRefresh)
    requires s.nCalls < |calls| && s.nRefreshes + 2 <= |refreshes| && s.response.FellThrough?
    ensures var r := Attempt(s, refreshToken, calls, refreshes, exceptRefresh);
            && (r.response.FellThrough? ==> exceptRefresh == WithCredentials && r.triedRefresh && !s.triedRefresh)
            && (exceptRefresh == MissingArguments || s.triedRefresh ==> r.nRefreshes <= s.nRefreshes + 1)
            && (s.triedRefresh && r.nCalls == s.nCalls + 1 && calls[s.nCalls].CallFailed? ==>
                  r.response == ServerError(calls[s.nCalls].message))
            && (r.response.Escaped? ==>
                  && r.trace != [] && Truthy(refreshToken)
                  && (exceptRefresh == MissingArguments ==>
                        && FailedUnauthorized(r.trace[|r.trace| - 1])
                        && r.response.error == MISSING_ARGUMENTS_ERROR && !r.triedRefresh)
                  && (exceptRefresh == WithCredentials ==>
                        r.trace[|r.trace| - 1] == Refresh(RefreshFailed(r.response.error), true)))
  {
    var (s1, failure) := TryBlock(s, refreshToken, calls, refreshes);
    if failure.Some? {
      TryBlockFailure(s, refreshToken, calls, refreshes);
    }
  }

  /** The exception the `try` block raises is the failure of the last event it recorded. */
  lemma TryBlockFailure<T>(s: LoopState<T>, refreshToken: Option<string>, calls: seq<CallOutcome<T>>,
                           refreshes: seq<RefreshOutcome>)
    requires s.nCalls < |calls| && s.nRefreshes < |refreshes|
    ensures var (s1, failure) := TryBlock(s, refreshToken, calls, refreshes);
            failure.Some? ==> s1.trace != [] && Failure(s1.trace[|s1.trace| - 1]) == failure
  {
  }

  /**
   * The loop always answers; it makes at most two protected calls and at
   * most three refreshes, and as written at most one of each. A second call
   * is only made after a refresh returned, so when it fails the handler
   * answers 500 with its message.
   */
  lemma RunShape<T>(accessToken: Option<string>, refreshToken: Option<string>, tokenExpires: Option<int>,
                    now: int, calls: seq<CallOutcome<T>>, refreshes: seq<RefreshOutcome>,
                    exceptRefresh: ExceptRefresh)
    requires |calls| >= 2 && |refreshes| >= 4
    ensures var r := Run(accessToken, refreshToken, tokenExpires, now, calls, refreshes, exceptRefresh);
            && !r.response.FellThrough?
            && |CallsIn(r.trace)| <= 2 && |RefreshesIn(r.trace)| <= 3
            && (exceptRefresh == MissingArguments ==> |CallsIn(r.trace)| <= 1 && |RefreshesIn(r.trace)| <= 1)
            && (|CallsIn(r.trace)| == 2 && calls[1].CallFailed? ==> r.response == ServerError(calls[1].message))
            && var s1 := Attempt(Start(accessToken, tokenExpires, now), refreshToken, calls, refreshes, exceptRefresh);
               s1.response.FellThrough? ==>
                 forall k :: |s1.trace| <= k < |r.trace| && Failure(r.trace[k]).Some? ==>
                   r.response == ServerError(Failure(r.trace[k]).value)
  {
    var s0 := Start<T>(accessToken, tokenExpires, now);
    assert Consistent(s0, refreshToken, calls, refreshes, exceptRefresh);
    FinishConsistent(0, s0, refreshToken, calls, refreshes, exceptRefresh);
    AttemptShape(s0, refreshToken, calls, refreshes, exceptRefresh);
    var s1 := Attempt(s0, refreshToken, calls, refreshes, exceptRefresh);
    assert Run(accessToken, refreshToken, tokenExpires, now, calls, refreshes, exceptRefresh)
           == Finish(1, s1, refreshToken, calls, refreshes, exceptRefresh);
    if s1.response.FellThrough? {
      AttemptShape(s1, refreshToken, calls, refreshes, exceptRefresh);
      SecondAttemptFailure(s1, refreshToken, calls, refreshes, exceptRefresh);
      assert Finish(1, s1, refreshToken, calls, refreshes, exceptRefresh)
             == Attempt(s1, refreshToken, calls, refreshes, exceptRefresh);
    }
  }

  /**
   * An attempt after a refresh returned only appends events, and whichever
   * of them raises (the `try` refresh or the call) makes the handler
   * answer 500 with that exception's text.
   */
  lemma SecondAttemptFailure<T>(s: LoopState<T>, refreshToken: Option<string>, calls: seq<CallOutcome<T>>,
                                refreshes: seq<RefreshOutcome>, exceptRefresh: ExceptRefresh)
    requires s.nCalls < |calls| && s.nRefreshes + 2 <= |refreshes| && s.response.FellThrough? && s.triedRefresh
    ensures var r := Attempt(s, refreshToken, calls, refreshes, exceptRefresh);
            && |s.trace| <= |r.trace| && r.trace[..|s.trace|] == s.trace
            && forall k :: |s.trace| <= k < |r.trace| && Failure(r.trace[k]).Some? ==>
                 r.response == ServerError(Failure(r.trace[k]).value)
  {
    var (s1, failure) := TryBlock(s, refreshToken, calls, refreshes);
    if !Truthy(s.token) && Truthy(refreshToken) {
      var rf := refreshes[s.nRefreshes];
      if rf.Refreshed? {
        var s2 := s.(nRefreshes := s.nRefreshes + 1, trace := s.trace + [Refresh(rf, false)], token := rf.accessToken, triedRefresh := true);
        if Truthy(s2.token) {
          assert (s2.trace + [Call(s2.token.value, calls[s2.nCalls])])[..|s.trace|] == s.trace;
        }
      }
    } else if Truthy(s.token) {
      assert (s.trace + [Call(s.token.value, calls[s.nCalls])])[..|s.trace|] == s.trace;
    }
  }

  /** With neither a usable token nor a refresh token the handler answers 401 without calling anything. */
  lemma NoTokenNoRefresh<T>(accessToken: Option<string>, refreshToken: Option<string>, tokenExpires: Option<int>,
                            now: int, calls: seq<CallOutcome<T>>, refreshes: seq<RefreshOutcome>,
                            exceptRefresh: ExceptRefresh)
    requires |calls| >= 2 && |refreshes| >= 4
    requires !Truthy(UsableToken(accessToken, tokenExpires, now)) && !Truthy(refreshToken)
    ensures var r := Run(accessToken, refreshToken, tokenExpires, now, calls, refreshes, exceptRefresh);
            r.response == Unauthenticated && r.trace == []
  {
  }

  /**
   * When the handler lets an exception escape. As written, exactly when the
   * last thing that happened raised an "unauthorized"/"401" failure, the
   * refresh token is truthy and no refresh had returned: the retry the
   * loop is meant to make raises the refresher's TypeError instead. With
   * the refresher called with all its arguments, only a failed `except`
   * refresh escapes.
   */
  lemma EscapeCauses<T>(accessToken: Option<string>, refreshToken: Option<string>, tokenExpires: Option<int>,
                        now: int, calls: seq<CallOutcome<T>>, refreshes: seq<RefreshOutcome>,
                        exceptRefresh: ExceptRefresh)
    requires |calls| >= 2 && |refreshes| >= 4
    ensures var r := Run(accessToken, refreshToken, tokenExpires, now, calls, refreshes, exceptRefresh);
            && (exceptRefresh == MissingArguments ==>
                  && (r.response.Escaped? <==>
                        r.trace != [] && FailedUnauthorized(r.trace[|r.trace| - 1]) && Truthy(refreshToken)
                        && !AnyRefreshed(r.trace))
                  && (r.response.Escaped? ==> r.response.error == MISSING_ARGUMENTS_ERROR))
            && (exceptRefresh == WithCredentials && r.response.Escaped? ==>
                  r.trace != [] && r.trace[|r.trace| - 1] == Refresh(RefreshFailed(r.response.error), true))
  {
    var s0 := Start<T>(accessToken, tokenExpires, now);
    assert Consistent(s0, refreshToken, calls, refreshes, exceptRefresh);
    FinishConsistent(0, s0, refreshToken, calls, refreshes, exceptRefresh);
    AttemptShape(s0, refreshToken, calls, refreshes, exceptRefresh);
    var s1 := Attempt(s0, refreshToken, calls, refreshes, exceptRefresh);
    assert Run(accessToken, refreshToken, tokenExpires, now, calls, refreshes, exceptRefresh)
           == Finish(1, s1, refreshToken, calls, refreshes, exceptRefresh);
    if s1.response.FellThrough? {
      AttemptShape(s1, refreshToken, calls, refreshes, exceptRefresh);
      assert Finish(1, s1, refreshToken, calls, refreshes, exceptRefresh)
             == Attempt(s1, refreshToken, calls, refreshes, exceptRefresh);
    } else if exceptRefresh == MissingArguments {
      TryBlockFailure(s0, refreshToken, calls, refreshes);
      AttemptConsistent(s0, refreshToken, calls, refreshes, exceptRefresh);
    }
  }

  /**
   * As written: a usable token that the platform rejects with a 401 is not
   * retried; the handler raises the refresher's TypeError.
   */
  lemma UnauthorizedCallEscapes<T>(accessToken: Option<string>, refreshToken: Option<string>,
                                   tokenExpires: Option<int>, now: int, calls: seq<CallOutcome<T>>,
                                   refreshes: seq<RefreshOutcome>)
    requires |calls| >= 2 && |refreshes| >= 4
    requires Truthy(UsableToken(accessToken, tokenExpires, now)) && Truthy(refreshToken)
    requires calls[0].CallFailed? && MentionsUnauthorized(calls[0].message)
    ensures var r := Run(accessToken, refreshToken, tokenExpires, now, calls, refreshes, MissingArguments);
            r.trace == [Call(accessToken.value, calls[0])] && r.response == Escaped(MISSING_ARGUMENTS_ERROR)
  {
  }

  /**
   * Corrected: the same rejection is followed by one refresh and one more
   * call with the new token, whose outcome is the answer.
   */
  lemma UnauthorizedCallRetried<T>(accessToken: Option<string>, refreshToken: Option<string>,
                                   tokenExpires: Option<int>, now: int, calls: seq<CallOutcome<T>>,
                                   refreshes: seq<RefreshOutcome>)
    requires |calls| >= 2 && |refreshes| >= 4
    requires Truthy(UsableToken(accessToken, tokenExpires, now)) && Truthy(refreshToken)
    requires calls[0].CallFailed? && MentionsUnauthorized(calls[0].message)
    requires refreshes[0].Refreshed? && Truthy(refreshes[0].accessToken)
    ensures var r := Run(accessToken, refreshToken, tokenExpires, now, calls, refreshes, WithCredentials);
            && r.trace == [Call(accessToken.value, calls[0]), Refresh(refreshes[0], true),
                           Call(refreshes[0].accessToken.value, calls[1])]
            && r.response == match calls[1] case CallOk(p) => Ok(p) case CallFailed(m) => ServerError(m)
  {
  }
}

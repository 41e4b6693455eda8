/** The attempt loop every node wraps around its POST: up to three attempts, one
    model pull on the first 404 (repeated on a later 404 only while pulls keep
    failing), an error string on the third failure, and an optional unload call
    after a success. The copies in the five nodes differ only in a `Policy`. */
module Retry {
  import opened Wrappers
  import opened Text
  import opened Chat

  /** What one POST came to: a response whose `choices[0].message.content` was read,
      an `HTTPError`, or any other exception (connection, malformed JSON, missing keys). */
  datatype Outcome = Success(content: string) | Http(code: int, reason: string) | Exc(msg: string)

  /** The server's side of one call: the outcome of attempt `k` is `replies[k - 1]`,
      and the `i`-th call of `pull_model` returns `pulls[i]`. */
  datatype Script = Script(replies: seq<Outcome>, pulls: seq<bool>) {
    predicate Valid() {
      |replies| == Attempts && |pulls| == Attempts
    }
  }

  const Attempts: nat := 3
  const NotFound: int := 404

  /** How a node words an HTTP failure. */
  datatype ErrorFormat = CodeAndReason | CodeOnly

  /** Whether a node unloads the model after a success, and with which arguments. */
  datatype StopMode = NeverStop | StopWithModel | StopEndpointOnly

  datatype Policy = Policy(format: ErrorFormat, stop: StopMode, strip: bool)

  datatype ChatError = HttpStatus(code: int, reason: string) | Transport(msg: string) | RetriesExhausted

  datatype Terminal = Answered(text: string) | Failed(error: ChatError)

  /** The arguments of one `stop_model` call: the endpoint and, when passed, the model. */
  datatype StopCall = StopCall(endpoint: string, model: Option<string>)

  /** What a whole call observably did: its result, how many POSTs it sent, at which
      attempts it pulled the model, and whether it called `stop_model`. */
  datatype Run = Run(result: Terminal, requests: nat, pullsAt: seq<nat>, stopped: bool)

  /** The user-visible error string. */
  function ErrorText(format: ErrorFormat, e: ChatError): (s: string)
    ensures "Error: " <= s
  {
    match e
    case HttpStatus(code, reason) =>
      (match format
       case CodeAndReason => "Error: HTTPError " + IntToString(code) + ": " + reason
       case CodeOnly => "Error: HTTP " + IntToString(code))
    case Transport(msg) => "Error: " + msg
    case RetriesExhausted => "Error: exhausted retries"
  }

  /** The string a node hands back for a finished call: the kept content, or the
      error text. */
  function Reply(p: Policy, t: Terminal): (s: string)
    ensures t.Failed? ==> "Error: " <= s
  {
    match t
    case Answered(text) => text
    case Failed(e) => ErrorText(p.format, e)
  }

  /** The content as the node keeps it. */
  function Extract(p: Policy, content: string): (r: string) {
    if p.strip then Strip(content) else content
  }

  /** A node that does not strip hands the content back as received; one that strips
      hands back a slice of it with no whitespace at either end; extracting twice
      changes nothing. */
  lemma ExtractKeeps(p: Policy, content: string)
    ensures !p.strip ==> Extract(p, content) == content
    ensures var r := Extract(p, content);
      p.strip ==> && (exists i, j :: 0 <= i <= j <= |content| && r == content[i..j])
                  && (r == [] || (!IsSpace(r[0]) && !IsSpace(r[|r| - 1])))
    ensures Extract(p, Extract(p, content)) == Extract(p, content)
  {
    if p.strip {
      var r := Strip(content);
      StripSlice(content);
      StripIdempotent(content);
      assert Extract(p, content) == r;
      assert Extract(p, r) == Strip(r);
    }
  }

  predicate StopsAfterSuccess(p: Policy, keepInMemory: bool) {
    p.stop != NeverStop && !keepInMemory
  }

  function StopFor(p: Policy, endpoint: string, model: string): (r: StopCall) {
    if p.stop == StopWithModel then StopCall(endpoint, Some(model)) else StopCall(endpoint, None)
  }

  /** How `pulled` stands once the pulls in `pullsAt` have happened: the last pull's result. */
  predicate PulledFlag(s: Script, pulled: bool, pullsAt: seq<nat>)
    requires s.Valid() && |pullsAt| <= Attempts
  {
    pulled == (|pullsAt| > 0 && s.pulls[|pullsAt| - 1])
  }

  /** The loop from attempt `attempt` on, with `pulled` and the pulls made so far. */
  function Play(p: Policy, keepInMemory: bool, s: Script, attempt: nat, pulled: bool, pullsAt: seq<nat>): (r: Run)
    requires s.Valid() && 1 <= attempt <= Attempts + 1 && |pullsAt| < attempt
    decreases Attempts + 1 - attempt
  {
    if attempt == Attempts + 1 then Run(Failed(RetriesExhausted), Attempts, pullsAt, false)
    else
      match s.replies[attempt - 1]
      case Success(c) => Run(Answered(Extract(p, c)), attempt, pullsAt, StopsAfterSuccess(p, keepInMemory))
      case Http(code, reason) =>
        if code == NotFound && !pulled then
          Play(p, keepInMemory, s, attempt + 1, s.pulls[|pullsAt|], pullsAt + [attempt])
        else if attempt == Attempts then Run(Failed(HttpStatus(code, reason)), Attempts, pullsAt, false)
        else Play(p, keepInMemory, s, attempt + 1, pulled, pullsAt)
      case Exc(msg) =>
        if attempt == Attempts then Run(Failed(Transport(msg)), Attempts, pullsAt, false)
        else Play(p, keepInMemory, s, attempt + 1, pulled, pullsAt)
  }

  /** A whole call, from the first attempt with nothing pulled. */
  function Call(p: Policy, keepInMemory: bool, s: Script): (r: Run)
    requires s.Valid()
    ensures 1 <= r.requests <= Attempts
    ensures r.result.Failed? ==> r.requests == Attempts
    ensures r.stopped <==> r.result.Answered? && StopsAfterSuccess(p, keepInMemory)
  {
    PlayRequests(p, keepInMemory, s, 1, false, []);
    PlayStops(p, keepInMemory, s, 1, false, []);
    Play(p, keepInMemory, s, 1, false, [])
  }

  /** The loop itself: POSTs `request` once per attempt and reacts to each outcome. */
  method Send(p: Policy, endpoint: string, model: string, keepInMemory: bool, request: ChatRequest, s: Script)
    returns (result: Terminal, sent: seq<ChatRequest>, pullsAt: seq<nat>, stops: seq<StopCall>)
    requires s.Valid()
    ensures var run := Call(p, keepInMemory, s);
      && result == run.result && pullsAt == run.pullsAt
      && |sent| == run.requests && (forall k :: 0 <= k < |sent| ==> sent[k] == request)
      && stops == (if run.stopped then [StopFor(p, endpoint, model)] else [])
  {
    var pulled := false;
    sent, pullsAt, stops := [], [], [];
    var attempt := 1;
    while attempt <= Attempts
      invariant 1 <= attempt <= Attempts + 1
      invariant |sent| == attempt - 1 && forall k :: 0 <= k < |sent| ==> sent[k] == request
      invariant |pullsAt| < attempt && stops == []
      invariant Play(p, keepInMemory, s, attempt, pulled, pullsAt) == Call(p, keepInMemory, s)
    {
      sent := sent + [request];
      match s.replies[attempt - 1] {
        case Success(c) =>
          result := Answered(Extract(p, c));
          if StopsAfterSuccess(p, keepInMemory) {
            stops := [StopFor(p, endpoint, model)];
          }
          return;
        case Http(code, reason) =>
          if code == NotFound && !pulled {
            pulled := s.pulls[|pullsAt|];
            pullsAt := pullsAt + [attempt];
            attempt := attempt + 1;
            continue;
          }
          if attempt == Attempts {
            result := Failed(HttpStatus(code, reason));
            return;
          }
        case Exc(msg) =>
          if attempt == Attempts {
            result := Failed(Transport(msg));
            return;
          }
      }
      attempt := attempt + 1;
    }
    result := Failed(RetriesExhausted);
  }

  // ---- Properties of the loop ----

  predicate IsNotFound(o: Outcome) {
    o.Http? && o.code == NotFound
  }

  /** How many of the outcomes are HTTP 404. */
  function CountNotFound(os: seq<Outcome>): (n: nat) {
    if os == [] then 0
    else CountNotFound(os[..|os| - 1]) + (if IsNotFound(os[|os| - 1]) then 1 else 0)
  }

  /** Every pull happened at a distinct attempt no later than `upto`, in order, and
      that attempt's reply was a 404. */
  ghost predicate PullsWellPlaced(s: Script, pullsAt: seq<nat>, upto: nat)
    requires s.Valid() && upto <= Attempts
  {
    && (forall j :: 0 <= j < |pullsAt| ==> 1 <= pullsAt[j] <= upto && IsNotFound(s.replies[pullsAt[j] - 1]))
    && (forall i, j :: 0 <= i < j < |pullsAt| ==> pullsAt[i] < pullsAt[j])
  }

  /** Only a failed pull is ever followed by another pull. */
  ghost predicate OnlyFailedPullsRepeat(s: Script, pullsAt: seq<nat>)
    requires s.Valid() && |pullsAt| <= Attempts
  {
    forall j :: 0 <= j < |pullsAt| - 1 ==> !s.pulls[j]
  }

  /** No pull before attempt `k` succeeded. */
  ghost predicate NoPullSucceededBefore(s: Script, pullsAt: seq<nat>, k: nat)
    requires s.Valid() && |pullsAt| <= Attempts
  {
    forall j :: 0 <= j < |pullsAt| && pullsAt[j] < k ==> !s.pulls[j]
  }

  /** Every 404 up to attempt `upto` that came while no pull had succeeded did trigger a pull. */
  ghost predicate NoMissedPull(s: Script, pullsAt: seq<nat>, upto: nat)
    requires s.Valid() && |pullsAt| <= Attempts && upto <= Attempts
  {
    forall k :: 1 <= k <= upto && IsNotFound(s.replies[k - 1]) && NoPullSucceededBefore(s, pullsAt, k) ==> k in pullsAt
  }

  /** What holds of the loop's variables at the top of attempt `attempt`. */
  ghost predicate Consistent(s: Script, attempt: nat, pulled: bool, pullsAt: seq<nat>)
    requires s.Valid()
  {
    && 1 <= attempt <= Attempts + 1 && |pullsAt| < attempt
    && PulledFlag(s, pulled, pullsAt)
    && PullsWellPlaced(s, pullsAt, attempt - 1)
    && OnlyFailedPullsRepeat(s, pullsAt)
    && NoMissedPull(s, pullsAt, attempt - 1)
    && |pullsAt| <= CountNotFound(s.replies[..attempt - 1])
    && (attempt == Attempts + 1 ==> |pullsAt| > 0 && pullsAt[|pullsAt| - 1] == Attempts)
  }

  /** How many POSTs the loop sends from attempt `attempt` on: at least one more, and
      all three when it fails. */
  lemma {:induction false} PlayRequests(p: Policy, keepInMemory: bool, s: Script, attempt: nat, pulled: bool, pullsAt: seq<nat>)
    requires s.Valid() && 1 <= attempt <= Attempts + 1 && |pullsAt| < attempt
    decreases Attempts + 1 - attempt
    ensures var r := Play(p, keepInMemory, s, attempt, pulled, pullsAt);
      && 1 <= r.requests <= Attempts && (attempt <= Attempts ==> attempt <= r.requests)
      && (r.result.Failed? ==> r.requests == Attempts)
  {
    if attempt <= Attempts && !s.replies[attempt - 1].Success? {
      var o := s.replies[attempt - 1];
      if o.Http? && o.code == NotFound && !pulled {
        PlayRequests(p, keepInMemory, s, attempt + 1, s.pulls[|pullsAt|], pullsAt + [attempt]);
      } else if attempt < Attempts {
        PlayRequests(p, keepInMemory, s, attempt + 1, pulled, pullsAt);
      }
    }
  }

  /** The loop unloads the model exactly when it answers and the node unloads at all. */
  lemma {:induction false} PlayStops(p: Policy, keepInMemory: bool, s: Script, attempt: nat, pulled: bool, pullsAt: seq<nat>)
    requires s.Valid() && 1 <= attempt <= Attempts + 1 && |pullsAt| < attempt
    decreases Attempts + 1 - attempt
    ensures var r := Play(p, keepInMemory, s, attempt, pulled, pullsAt);
      r.stopped <==> r.result.Answered? && StopsAfterSuccess(p, keepInMemory)
  {
    if attempt <= Attempts && !s.replies[attempt - 1].Success? {
      var o := s.replies[attempt - 1];
      if o.Http? && o.code == NotFound && !pulled {
        PlayStops(p, keepInMemory, s, attempt + 1, s.pulls[|pullsAt|], pullsAt + [attempt]);
      } else if attempt < Attempts {
        PlayStops(p, keepInMemory, s, attempt + 1, pulled, pullsAt);
      }
    }
  }

  /** Some reply from index `k` on is a success. */
  predicate SuccessFrom(s: Script, k: nat)
    requires s.Valid()
  {
    exists j :: k <= j < Attempts && s.replies[j].Success?
  }

  lemma SuccessFromStep(s: Script, k: nat)
    requires s.Valid() && k < Attempts
    ensures SuccessFrom(s, k) <==> s.replies[k].Success? || SuccessFrom(s, k + 1)
  {
    if SuccessFrom(s, k) && !s.replies[k].Success? {
      var j :| k <= j < Attempts && s.replies[j].Success?;
      assert k + 1 <= j;
    }
  }

  /** From attempt `attempt` on, the loop answers exactly when some remaining reply is a
      success. */
  lemma {:induction false} PlayAnswers(p: Policy, keepInMemory: bool, s: Script, attempt: nat, pulled: bool, pullsAt: seq<nat>)
    requires s.Valid() && 1 <= attempt <= Attempts + 1 && |pullsAt| < attempt
    decreases Attempts + 1 - attempt
    ensures Play(p, keepInMemory, s, attempt, pulled, pullsAt).result.Answered? <==> SuccessFrom(s, attempt - 1)
  {
    if attempt == Attempts + 1 {
      return;
    }
    SuccessFromStep(s, attempt - 1);
    var o := s.replies[attempt - 1];
    if o.Success? {
      return;
    }
    if o.Http? && o.code == NotFound && !pulled {
      PlayAnswers(p, keepInMemory, s, attempt + 1, s.pulls[|pullsAt|], pullsAt + [attempt]);
    } else if attempt < Attempts {
      PlayAnswers(p, keepInMemory, s, attempt + 1, pulled, pullsAt);
    } else {
      assert !SuccessFrom(s, attempt);
    }
  }

  /** An answer is the content of the first successful reply from attempt `attempt` on,
      and the loop stops at that reply. */
  lemma {:induction false} PlayFirstSuccess(p: Policy, keepInMemory: bool, s: Script, attempt: nat, pulled: bool, pullsAt: seq<nat>)
    requires s.Valid() && 1 <= attempt <= Attempts + 1 && |pullsAt| < attempt
    decreases Attempts + 1 - attempt
    ensures var r := Play(p, keepInMemory, s, attempt, pulled, pullsAt);
      r.result.Answered? ==>
        && attempt <= r.requests <= Attempts
        && s.replies[r.requests - 1].Success?
        && r.result.text == Extract(p, s.replies[r.requests - 1].content)
        && forall k :: attempt - 1 <= k < r.requests - 1 ==> !s.replies[k].Success?
  {
    if attempt <= Attempts && !s.replies[attempt - 1].Success? {
      var o := s.replies[attempt - 1];
      if o.Http? && o.code == NotFound && !pulled {
        PlayFirstSuccess(p, keepInMemory, s, attempt + 1, s.pulls[|pullsAt|], pullsAt + [attempt]);
      } else if attempt < Attempts {
        PlayFirstSuccess(p, keepInMemory, s, attempt + 1, pulled, pullsAt);
      }
    }
  }

  /** What holds of the pulls once the loop has returned `r`: each at a 404, none
      after a successful one, none missed, never more than the 404s seen, and the
      retries ran out exactly when the third attempt ended in a pull. */
  ghost predicate Settled(s: Script, r: Run)
    requires s.Valid()
  {
    && r.requests <= Attempts && |r.pullsAt| <= Attempts
    && PullsWellPlaced(s, r.pullsAt, r.requests)
    && OnlyFailedPullsRepeat(s, r.pullsAt)
    && NoMissedPull(s, r.pullsAt, r.requests)
    && |r.pullsAt| <= CountNotFound(s.replies[..r.requests])
    && (r.result == Failed(RetriesExhausted) <==> Attempts in r.pullsAt)
  }

  lemma CountNotFoundGrows(s: Script, attempt: nat)
    requires s.Valid() && 1 <= attempt <= Attempts
    ensures CountNotFound(s.replies[..attempt]) ==
      CountNotFound(s.replies[..attempt - 1]) + (if IsNotFound(s.replies[attempt - 1]) then 1 else 0)
  {
    assert s.replies[..attempt][..attempt - 1] == s.replies[..attempt - 1];
  }

  /** A 404 while `pulled` is false: the pull keeps the loop's variables consistent. */
  lemma ConsistentAfterPull(s: Script, attempt: nat, pulled: bool, pullsAt: seq<nat>)
    requires s.Valid() && Consistent(s, attempt, pulled, pullsAt) && attempt <= Attempts
    requires IsNotFound(s.replies[attempt - 1]) && !pulled
    ensures Consistent(s, attempt + 1, s.pulls[|pullsAt|], pullsAt + [attempt])
  {
    var next := pullsAt + [attempt];
    CountNotFoundGrows(s, attempt);
    forall k | 1 <= k <= attempt && IsNotFound(s.replies[k - 1]) && NoPullSucceededBefore(s, next, k)
      ensures k in next
    {
      if k < attempt {
        assert NoPullSucceededBefore(s, pullsAt, k);
      }
    }
  }

  /** A failure that triggers no pull on attempts 1 and 2 keeps the variables consistent. */
  lemma ConsistentAfterRetry(s: Script, attempt: nat, pulled: bool, pullsAt: seq<nat>)
    requires s.Valid() && Consistent(s, attempt, pulled, pullsAt) && attempt < Attempts
    requires !s.replies[attempt - 1].Success? && !(IsNotFound(s.replies[attempt - 1]) && !pulled)
    ensures Consistent(s, attempt + 1, pulled, pullsAt)
  {
    CountNotFoundGrows(s, attempt);
    forall k | 1 <= k <= attempt && IsNotFound(s.replies[k - 1]) && NoPullSucceededBefore(s, pullsAt, k)
      ensures k in pullsAt
    {
      if k == attempt {
        assert false;
      }
    }
  }

  /** A return at attempt `attempt` (a success, or a failure that triggers no pull) settles the pulls. */
  lemma SettledOnReturn(s: Script, attempt: nat, pulled: bool, pullsAt: seq<nat>, result: Terminal, stopped: bool)
    requires s.Valid() && Consistent(s, attempt, pulled, pullsAt) && attempt <= Attempts
    requires !(IsNotFound(s.replies[attempt - 1]) && !pulled)
    requires result != Failed(RetriesExhausted)
    ensures Settled(s, Run(result, attempt, pullsAt, stopped))
  {
    CountNotFoundGrows(s, attempt);
    assert Attempts !in pullsAt;
    forall k | 1 <= k <= attempt && IsNotFound(s.replies[k - 1]) && NoPullSucceededBefore(s, pullsAt, k)
      ensures k in pullsAt
    {
      if k == attempt {
        assert false;
      }
    }
  }

  /** From a consistent state on, the loop's pulls end up settled. */
  lemma {:induction false} PlayPulls(p: Policy, keepInMemory: bool, s: Script, attempt: nat, pulled: bool, pullsAt: seq<nat>)
    requires s.Valid() && Consistent(s, attempt, pulled, pullsAt)
    decreases Attempts + 1 - attempt
    ensures Settled(s, Play(p, keepInMemory, s, attempt, pulled, pullsAt))
  {
    if attempt == Attempts + 1 {
      return;
    }
    var o := s.replies[attempt - 1];
    if o.Success? {
      SettledOnReturn(s, attempt, pulled, pullsAt, Answered(Extract(p, o.content)), StopsAfterSuccess(p, keepInMemory));
    } else if IsNotFound(o) && !pulled {
      ConsistentAfterPull(s, attempt, pulled, pullsAt);
      PlayPulls(p, keepInMemory, s, attempt + 1, s.pulls[|pullsAt|], pullsAt + [attempt]);
    } else if attempt < Attempts {
      ConsistentAfterRetry(s, attempt, pulled, pullsAt);
      PlayPulls(p, keepInMemory, s, attempt + 1, pulled, pullsAt);
    } else if o.Http? {
      SettledOnReturn(s, attempt, pulled, pullsAt, Failed(HttpStatus(o.code, o.reason)), false);
    } else {
      SettledOnReturn(s, attempt, pulled, pullsAt, Failed(Transport(o.msg)), false);
    }
  }

  /** On failure the error comes from the third reply, unless that 404 triggered a pull. */
  lemma {:induction false} PlayFailure(p: Policy, keepInMemory: bool, s: Script, attempt: nat, pulled: bool, pullsAt: seq<nat>)
    requires s.Valid() && 1 <= attempt <= Attempts + 1 && |pullsAt| < attempt
    decreases Attempts + 1 - attempt
    ensures var r := Play(p, keepInMemory, s, attempt, pulled, pullsAt);
      && (r.result.Failed? && r.result.error.HttpStatus? ==>
            s.replies[Attempts - 1] == Http(r.result.error.code, r.result.error.reason))
      && (r.result.Failed? && r.result.error.Transport? ==> s.replies[Attempts - 1] == Exc(r.result.error.msg))
  {
    if attempt <= Attempts && !s.replies[attempt - 1].Success? {
      var o := s.replies[attempt - 1];
      if o.Http? && o.code == NotFound && !pulled {
        PlayFailure(p, keepInMemory, s, attempt + 1, s.pulls[|pullsAt|], pullsAt + [attempt]);
      } else if attempt < Attempts {
        PlayFailure(p, keepInMemory, s, attempt + 1, pulled, pullsAt);
      }
    }
  }

  /** A whole call sends one to three POSTs. It answers exactly when one of the three
      replies is a success, and then with the first success's content, sent as soon as
      it arrives; otherwise all three attempts were used. */
  lemma CallAnswersFirstSuccess(p: Policy, keepInMemory: bool, s: Script)
    requires s.Valid()
    ensures var r := Call(p, keepInMemory, s);
      && 1 <= r.requests <= Attempts
      && (r.result.Answered? <==> exists k :: 0 <= k < Attempts && s.replies[k].Success?)
      && (r.result.Answered? ==>
            && s.replies[r.requests - 1].Success?
            && r.result.text == Extract(p, s.replies[r.requests - 1].content)
            && forall k :: 0 <= k < r.requests - 1 ==> !s.replies[k].Success?)
      && (r.result.Failed? ==> r.requests == Attempts)
  {
    PlayRequests(p, keepInMemory, s, 1, false, []);
    PlayAnswers(p, keepInMemory, s, 1, false, []);
    PlayFirstSuccess(p, keepInMemory, s, 1, false, []);
  }

  /** `pull_model` runs only on a 404 that arrives while no pull has succeeded, and on
      every such 404; after a successful pull there is none; there are never more pulls
      than 404 replies. */
  lemma CallPullDiscipline(p: Policy, keepInMemory: bool, s: Script)
    requires s.Valid()
    ensures var r := Call(p, keepInMemory, s);
      && |r.pullsAt| <= r.requests
      && PullsWellPlaced(s, r.pullsAt, r.requests)
      && OnlyFailedPullsRepeat(s, r.pullsAt)
      && NoMissedPull(s, r.pullsAt, r.requests)
      && |r.pullsAt| <= CountNotFound(s.replies[..r.requests])
  {
    PlayPulls(p, keepInMemory, s, 1, false, []);
    var r := Call(p, keepInMemory, s);
    CountNotFoundBounded(s.replies[..r.requests]);
  }

  lemma {:induction false} CountNotFoundBounded(os: seq<Outcome>)
    ensures CountNotFound(os) <= |os|
  {
    if os != [] {
      CountNotFoundBounded(os[..|os| - 1]);
    }
  }

  /** How a failed call's error arises: "exhausted retries" exactly when the third
      attempt was a 404 that triggered a pull; otherwise the third reply's HTTP status
      or exception message. */
  lemma CallFailureReasons(p: Policy, keepInMemory: bool, s: Script)
    requires s.Valid()
    ensures var r := Call(p, keepInMemory, s);
      && (r.result == Failed(RetriesExhausted) <==> Attempts in r.pullsAt)
      && (Attempts in r.pullsAt ==> IsNotFound(s.replies[Attempts - 1]))
      && (r.result.Failed? && r.result.error.HttpStatus? ==>
            s.replies[Attempts - 1] == Http(r.result.error.code, r.result.error.reason))
      && (r.result.Failed? && r.result.error.Transport? ==> s.replies[Attempts - 1] == Exc(r.result.error.msg))
  {
    PlayPulls(p, keepInMemory, s, 1, false, []);
    PlayFailure(p, keepInMemory, s, 1, false, []);
  }

  /** `stop_model` is called once exactly when the call answered, the node unloads at
      all and `keep_in_memory` is false; never on a failure. */
  lemma CallStopsOnlyAfterSuccess(p: Policy, keepInMemory: bool, s: Script)
    requires s.Valid()
    ensures var r := Call(p, keepInMemory, s);
      r.stopped <==> r.result.Answered? && p.stop != NeverStop && !keepInMemory
  {
    PlayStops(p, keepInMemory, s, 1, false, []);
  }

  /** A 404 then a success: one pull, two POSTs, the second reply's content. */
  lemma NotFoundThenSuccess(p: Policy, keepInMemory: bool, reason: string, content: string, third: Outcome, pulls: seq<bool>)
    requires |pulls| == Attempts
    ensures var r := Call(p, keepInMemory, Script([Http(NotFound, reason), Success(content), third], pulls));
      r.result == Answered(Extract(p, content)) && r.requests == 2 && r.pullsAt == [1]
  {
  }

  /** Three server errors: three POSTs, no pull, the third status reported. */
  lemma ServerErrorThrice(p: Policy, keepInMemory: bool, reasons: seq<string>, pulls: seq<bool>)
    requires |reasons| == Attempts && |pulls| == Attempts
    ensures var r := Call(p, keepInMemory, Script([Http(500, reasons[0]), Http(500, reasons[1]), Http(500, reasons[2])], pulls));
      r.result == Failed(HttpStatus(500, reasons[2])) && r.requests == Attempts && r.pullsAt == []
  {
  }
}

/** Why a read of a page ended: every outcome has its cause at the URL where the chain of requests stopped. */
module ReadCauses {
  import opened Wrappers
  import opened BoundedRead

  ghost predicate SaysChallenge(w: World, header: Option<string>) {
    header.Some? && w.lowerCase(header.value) == "challenge"
  }

  /** A bot wall: Cloudflare or Vercel say that they challenge the bot, or DataDome forbids it. */
  ghost predicate Walled(w: World, r: Response) {
    SaysChallenge(w, r.cfMitigated) || SaysChallenge(w, r.vercelMitigated) || (r.datadome && r.status == 403)
  }

  ghost predicate IsRedirected(r: Response) {
    300 <= r.status <= 399 && r.location.GetOr("") != ""
  }

  /** Why the read ended at URL `url`, where request `n` was due. */
  ghost predicate Explains(w: World, n: nat, url: Url, outcome: Outcome, limit: nat, truncate: bool) {
    var answer := w.fetch(n, url);
    var final := answer.Answer? && !IsRedirected(answer.response);
    var body := if answer.Answer? then BoundedBody(answer.response.declared, answer.response.stream, limit, truncate)
                else Broken;
    match outcome
    case Error(_, TooManyRedirects) => n == MAX_REDIRECTS + 1
    case Error(_, PeatedWebsite) => w.addressRefusal(url) == Some(OwnWebsite)
    case Error(_, NotPublic) =>
      w.addressRefusal(url) == Some(NotPublicAddress) || (Allowed(w, n, url) && answer == Failed(PublicAddressError))
    case Refused(refusal) =>
      w.addressRefusal(url).None? && n > 0 && w.beforeRedirect.Some?
      && w.beforeRedirect.value(n, url) == Some(refusal)
    case Error(_, Timeout) => Allowed(w, n, url) && answer == Failed(TimeoutOrAbort)
    case Error(_, Transport) =>
      Allowed(w, n, url) && (answer == Failed(OtherError)
                             || (final && 200 <= answer.response.status < 300 && !Walled(w, answer.response)
                                 && body == Broken))
    case Error(_, TooLargeBody) =>
      Allowed(w, n, url) && final && 200 <= answer.response.status < 300 && !Walled(w, answer.response)
      && body == TooLarge
    case BotWall(_) => Allowed(w, n, url) && final && Walled(w, answer.response)
    case Status(_, status) =>
      Allowed(w, n, url) && answer.Answer? && status == answer.response.status
      && (if final then !(200 <= status < 300) && !Walled(w, answer.response)
          else forall next :: !Redirects(w, url, answer.response, next))
    case Page(_, bytes, contentType) =>
      Allowed(w, n, url) && final && 200 <= answer.response.status < 300 && !Walled(w, answer.response)
      && body == Body(bytes) && contentType == answer.response.contentType
  }

  /** The URL an outcome names. */
  predicate Concerns(outcome: Outcome, url: Url) {
    outcome.Refused? || outcome.url == url
  }

  lemma RefusalExplains(w: World, n: nat, url: Url, limit: nat, truncate: bool)
    requires n > MAX_REDIRECTS || !Allowed(w, n, url)
    ensures n <= MAX_REDIRECTS + 1 ==> Explains(w, n, url, Follow(w, url, n, limit, truncate).0, limit, truncate)
    ensures Concerns(Follow(w, url, n, limit, truncate).0, url) && Follow(w, url, n, limit, truncate).1 == []
  {}

  lemma AnswerExplains(w: World, n: nat, url: Url, limit: nat, truncate: bool)
    requires n <= MAX_REDIRECTS && Allowed(w, n, url)
    requires var answer := w.fetch(n, url);
             answer.Answer? && IsRedirect(answer.response) ==> NextUrl(w, url, answer.response).None?
    ensures Explains(w, n, url, Follow(w, url, n, limit, truncate).0, limit, truncate)
    ensures Concerns(Follow(w, url, n, limit, truncate).0, url) && Follow(w, url, n, limit, truncate).1 == [url]
  {}

  /** Every outcome has its cause at the URL where the chain of requests ended: `last` is the URL requested last, or
      the one that was not requested any more. */
  lemma {:induction false} OutcomeHasItsCause(w: World, url: Url, redirect: nat, limit: nat, truncate: bool)
      returns (n: nat, last: Url)
    requires redirect <= MAX_REDIRECTS + 1
    ensures redirect <= n <= MAX_REDIRECTS + 1
    ensures var (outcome, requests) := Follow(w, url, redirect, limit, truncate);
            && Explains(w, n, last, outcome, limit, truncate) && Concerns(outcome, last)
            && (if n <= MAX_REDIRECTS && Allowed(w, n, last) then
                  |requests| == n - redirect + 1 && requests[n - redirect] == last
                else |requests| == n - redirect)
    decreases MAX_REDIRECTS + 1 - redirect
  {
    hide Explains, Finished;
    n, last := redirect, url;
    if redirect > MAX_REDIRECTS || !Allowed(w, redirect, url) {
      RefusalExplains(w, redirect, url, limit, truncate);
      return;
    }
    FollowGoesOn(w, url, redirect, limit, truncate);
    var answer := w.fetch(redirect, url);
    if answer.Answer? && IsRedirect(answer.response) && NextUrl(w, url, answer.response).Some? {
      n, last := OutcomeHasItsCause(w, NextUrl(w, url, answer.response).value, redirect + 1, limit, truncate);
    } else {
      AnswerExplains(w, redirect, url, limit, truncate);
    }
  }
}

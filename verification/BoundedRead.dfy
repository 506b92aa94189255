/** Reading a page: a body of bounded size, after a bounded chain of checked redirects. */
module BoundedRead {
  import opened Wrappers

  newtype byte = x: int | 0 <= x < 0x100

  // ---------- The body ----------

  /** The chunks a response streams, and whether the connection then breaks instead of ending. */
  datatype Stream = Stream(chunks: seq<seq<byte>>, breaks: bool)

  datatype ReadOutcome = Body(bytes: seq<byte>) | TooLarge | Broken

  function Flatten(chunks: seq<seq<byte>>): seq<byte> {
    if chunks == [] then [] else Flatten(chunks[..|chunks| - 1]) + chunks[|chunks| - 1]
  }

  lemma {:induction false} FlattenPrefix(chunks: seq<seq<byte>>, n: nat)
    requires n <= |chunks|
    ensures Flatten(chunks[..n]) <= Flatten(chunks)
  {
    if n < |chunks| {
      FlattenPrefix(chunks[..|chunks| - 1], n);
      assert chunks[..|chunks| - 1][..n] == chunks[..n];
    } else {
      assert chunks[..n] == chunks;
    }
  }

  /** The whole stream when it fits, its first `maxBytes` when it may be cut off, else nothing. */
  function BoundedBody(declared: Option<int>, stream: Option<Stream>, maxBytes: nat, truncate: bool): ReadOutcome {
    if !truncate && declared.Some? && declared.value > maxBytes then TooLarge
    else if stream.None? then Body([])
    else
      var all := Flatten(stream.value.chunks);
      if |all| > maxBytes then (if truncate then Body(all[..maxBytes]) else TooLarge)
      else if stream.value.breaks then Broken
      else Body(all)
  }

  /** Copies the chunks one after another into a buffer of their total size. */
  method CopyChunks(chunks: seq<seq<byte>>, total: nat) returns (body: seq<byte>)
    requires total == |Flatten(chunks)|
    ensures body == Flatten(chunks)
  {
    var buffer := new byte[total];
    var offset := 0;
    for i := 0 to |chunks|
      invariant offset == |Flatten(chunks[..i])| <= total
      invariant buffer[..offset] == Flatten(chunks[..i])
    {
      assert chunks[..i + 1][..i] == chunks[..i];
      FlattenPrefix(chunks, i + 1);
      var chunk := chunks[i];
      for k := 0 to |chunk|
        invariant buffer[..offset] == Flatten(chunks[..i])
        invariant buffer[offset..offset + k] == chunk[..k]
      {
        buffer[offset + k] := chunk[k];
      }
      assert buffer[..offset + |chunk|] == buffer[..offset] + buffer[offset..offset + |chunk|];
      offset := offset + |chunk|;
    }
    assert chunks[..|chunks|] == chunks;
    body := buffer[..];
  }

  /** `declared` is the content length, when it is a finite number. */
  method ReadBody(declared: Option<int>, stream: Option<Stream>, maxBytes: nat, truncate: bool)
      returns (outcome: ReadOutcome)
    ensures outcome == BoundedBody(declared, stream, maxBytes, truncate)
  {
    if !truncate && declared.Some? && declared.value > maxBytes { return TooLarge; }
    if stream.None? { return Body([]); }
    var source := stream.value.chunks;
    var chunks: seq<seq<byte>> := [];
    var total := 0;
    var next := 0;
    while true
      invariant next <= |source| && chunks == source[..next] && total == |Flatten(chunks)| <= maxBytes
      decreases |source| - next
    {
      if next == |source| {
        assert chunks == source;
        if stream.value.breaks { return Broken; }
        break;
      }
      var value := source[next];
      assert source[..next + 1][..next] == source[..next];
      FlattenPrefix(source, next + 1);
      if total + |value| > maxBytes {
        if !truncate { return TooLarge; }
        ghost var before := chunks;
        chunks := chunks + [value[..maxBytes - total]];
        assert chunks[..|chunks| - 1] == before;
        assert Flatten(chunks) == Flatten(source)[..maxBytes];
        total := maxBytes;
        break;
      }
      chunks := chunks + [value];
      total := total + |value|;
      next := next + 1;
    }
    var body := CopyChunks(chunks, total);
    outcome := Body(body);
  }

  /** The body never exceeds the bound, is a prefix of what was sent, and is shorter only when it may be cut off. */
  lemma BodyIsBoundedPrefix(declared: Option<int>, stream: Stream, maxBytes: nat, truncate: bool)
    requires BoundedBody(declared, Some(stream), maxBytes, truncate).Body?
    ensures var body := BoundedBody(declared, Some(stream), maxBytes, truncate).bytes;
            && |body| <= maxBytes && body <= Flatten(stream.chunks)
            && (body != Flatten(stream.chunks) ==> truncate && |body| == maxBytes)
  {}

  /** A stream longer than the bound is refused when it may not be cut off, and so is one declared longer; a broken
      stream is an error only while it is within the bound. */
  lemma BodyOutcomeExactly(declared: Option<int>, stream: Stream, maxBytes: nat, truncate: bool)
    ensures var outcome := BoundedBody(declared, Some(stream), maxBytes, truncate);
            var sent := |Flatten(stream.chunks)|;
            var declaredTooLarge := declared.Some? && declared.value > maxBytes;
            && (outcome.TooLarge? <==> !truncate && (sent > maxBytes || declaredTooLarge))
            && (outcome.Broken? <==> stream.breaks && sent <= maxBytes && (truncate || !declaredTooLarge))
    ensures BoundedBody(declared, None, maxBytes, truncate) ==
            if !truncate && declared.Some? && declared.value > maxBytes then TooLarge else Body([])
  {}

  // ---------- Redirects ----------

  type Url = string

  datatype Failure = NotPublic | PeatedWebsite | Timeout | Transport | TooLargeBody | TooManyRedirects
  datatype RobotsRefusal = RobotsRefusal(reason: string)

  datatype Response = Response(
    status: nat, location: Option<string>, cfMitigated: Option<string>, vercelMitigated: Option<string>, datadome: bool,
    contentType: Option<string>, declared: Option<int>, stream: Option<Stream>)

  datatype AddressRefusal = NotPublicAddress | OwnWebsite
  datatype FetchError = PublicAddressError | TimeoutOrAbort | OtherError
  datatype Fetched = Answer(response: Response) | Failed(error: FetchError)

  function AddressReason(refusal: AddressRefusal): Failure {
    if refusal == NotPublicAddress then NotPublic else PeatedWebsite
  }

  function FetchReason(error: FetchError): Failure {
    match error
    case PublicAddressError => NotPublic
    case TimeoutOrAbort => Timeout
    case OtherError => Transport
  }

  /** The world of one read: the address rules, the optional hooks, and what the n-th request is answered. */
  datatype World = World(
    addressRefusal: Url -> Option<AddressRefusal>,
    beforeRedirect: Option<(nat, Url) -> Option<RobotsRefusal>>,
    followRedirect: Option<Url -> bool>,
    parseReadableUrl: (string, Url) -> Option<Url>,
    lowerCase: string -> string,
    fetch: (nat, Url) -> Fetched)

  datatype Outcome =
    | Page(url: Url, body: seq<byte>, contentType: Option<string>)
    | Status(url: Url, status: nat)
    | BotWall(url: Url)
    | Refused(read: RobotsRefusal)
    | Error(url: Url, reason: Failure)

  const MAX_REDIRECTS := 5

  function IsBotWall(w: World, r: Response): bool {
    || (r.cfMitigated.Some? && w.lowerCase(r.cfMitigated.value) == "challenge")
    || (r.vercelMitigated.Some? && w.lowerCase(r.vercelMitigated.value) == "challenge")
    || (r.status == 403 && r.datadome)
  }

  predicate IsRedirect(r: Response) {
    300 <= r.status < 400 && r.location.Some? && r.location.value != ""
  }

  /** Where a redirect leads, if the bot may follow it. */
  function NextUrl(w: World, url: Url, r: Response): Option<Url>
    requires IsRedirect(r)
  {
    var next := w.parseReadableUrl(r.location.value, url);
    if next.None? || (w.followRedirect.Some? && !w.followRedirect.value(next.value)) then None else next
  }

  function HookRefusal(w: World, redirect: nat, url: Url): Option<RobotsRefusal> {
    if redirect > 0 && w.beforeRedirect.Some? then w.beforeRedirect.value(redirect, url) else None
  }

  /** What a final answer comes to. */
  function Finished(w: World, url: Url, r: Response, limit: nat, truncate: bool): Outcome {
    if IsBotWall(w, r) then BotWall(url)
    else if !(200 <= r.status < 300) then Status(url, r.status)
    else
      match BoundedBody(r.declared, r.stream, limit, truncate)
      case Broken => Error(url, Transport)
      case TooLarge => Error(url, TooLargeBody)
      case Body(bytes) => Page(url, bytes, r.contentType)
  }

  /** The read from its n-th request on: its outcome and the URLs requested, in order. */
  function Follow(w: World, url: Url, redirect: nat, limit: nat, truncate: bool): (Outcome, seq<Url>)
    decreases MAX_REDIRECTS + 1 - redirect
  {
    if redirect > MAX_REDIRECTS then (Error(url, TooManyRedirects), [])
    else if w.addressRefusal(url).Some? then (Error(url, AddressReason(w.addressRefusal(url).value)), [])
    else if HookRefusal(w, redirect, url).Some? then (Refused(HookRefusal(w, redirect, url).value), [])
    else
      match w.fetch(redirect, url)
      case Failed(error) => (Error(url, FetchReason(error)), [url])
      case Answer(r) =>
        if !IsRedirect(r) then (Finished(w, url, r, limit, truncate), [url])
        else
          var next := NextUrl(w, url, r);
          if next.None? then (Status(url, r.status), [url])
          else
            var (outcome, rest) := Follow(w, next.value, redirect + 1, limit, truncate);
            (outcome, [url] + rest)
  }

  lemma FollowStops(w: World, url: Url, redirect: nat, limit: nat, truncate: bool)
    ensures var now := Follow(w, url, redirect, limit, truncate);
            && (redirect > MAX_REDIRECTS ==> now == (Error(url, TooManyRedirects), []))
            && (redirect <= MAX_REDIRECTS && w.addressRefusal(url).Some? ==>
                  now == (Error(url, AddressReason(w.addressRefusal(url).value)), []))
            && (redirect <= MAX_REDIRECTS && w.addressRefusal(url).None? && HookRefusal(w, redirect, url).Some? ==>
                  now == (Refused(HookRefusal(w, redirect, url).value), []))
  {}

  lemma FollowGoesOn(w: World, url: Url, redirect: nat, limit: nat, truncate: bool)
    requires redirect <= MAX_REDIRECTS && Allowed(w, redirect, url)
    ensures var answer := w.fetch(redirect, url);
            var now := Follow(w, url, redirect, limit, truncate);
            if answer.Failed? then now == (Error(url, FetchReason(answer.error)), [url])
            else if !IsRedirect(answer.response) then now == (Finished(w, url, answer.response, limit, truncate), [url])
            else
              var next := NextUrl(w, url, answer.response);
              if next.None? then now == (Status(url, answer.response.status), [url])
              else
                var rest := Follow(w, next.value, redirect + 1, limit, truncate);
                now.0 == rest.0 && now.1 == [url] + rest.1
  {
    hide Finished;
  }

  method Finish(w: World, url: Url, response: Response, limit: nat, truncate: bool) returns (outcome: Outcome)
    ensures outcome == Finished(w, url, response, limit, truncate)
  {
    if IsBotWall(w, response) { return BotWall(url); }
    if !(200 <= response.status < 300) { return Status(url, response.status); }
    var body := ReadBody(response.declared, response.stream, limit, truncate);
    match body {
      case Broken => return Error(url, Transport);
      case TooLarge => return Error(url, TooLargeBody);
      case Body(bytes) => return Page(url, bytes, response.contentType);
    }
  }

  /** `requests` lists the URLs requested, in order. */
  method FetchDirect(w: World, start: Url, limit: nat, truncate: bool) returns (outcome: Outcome, requests: seq<Url>)
    ensures outcome == Follow(w, start, 0, limit, truncate).0
    ensures requests == Follow(w, start, 0, limit, truncate).1
  {
    hide Finished, Follow;
    var url := start;
    requests := [];
    var redirect := 0;
    ghost var all := Follow(w, start, 0, limit, truncate);
    while redirect <= MAX_REDIRECTS
      invariant redirect <= MAX_REDIRECTS + 1
      invariant all.0 == Follow(w, url, redirect, limit, truncate).0
      invariant all.1 == requests + Follow(w, url, redirect, limit, truncate).1
    {
      FollowStops(w, url, redirect, limit, truncate);
      var refused := w.addressRefusal(url);
      if refused.Some? { return Error(url, AddressReason(refused.value)), requests; }
      if redirect > 0 && w.beforeRedirect.Some? {
        var refusal := w.beforeRedirect.value(redirect, url);
        if refusal.Some? { return Refused(refusal.value), requests; }
      }
      FollowGoesOn(w, url, redirect, limit, truncate);
      ghost var before := requests;
      requests := requests + [url];
      var answer := w.fetch(redirect, url);
      if answer.Failed? { return Error(url, FetchReason(answer.error)), requests; }
      var response := answer.response;
      if 300 <= response.status < 400 && response.location.Some? && response.location.value != "" {
        var next := w.parseReadableUrl(response.location.value, url);
        if next.None? || (w.followRedirect.Some? && !w.followRedirect.value(next.value)) {
          return Status(url, response.status), requests;
        }
        assert all.1 == before + ([url] + Follow(w, next.value, redirect + 1, limit, truncate).1);
        url := next.value;
        redirect := redirect + 1;
        continue;
      }
      outcome := Finish(w, url, response, limit, truncate);
      return;
    }
    FollowStops(w, url, redirect, limit, truncate);
    outcome := Error(url, TooManyRedirects);
  }

  // ---------- Every request was allowed ----------

  /** The n-th request of the read: its address and, after the first, the hook let it through. */
  ghost predicate Allowed(w: World, redirect: nat, url: Url) {
    && w.addressRefusal(url).None?
    && (redirect > 0 && w.beforeRedirect.Some? ==> w.beforeRedirect.value(redirect, url).None?)
  }

  /** A redirect to `location` that the bot may follow leads to `next`. */
  ghost predicate Redirects(w: World, url: Url, r: Response, next: Url) {
    && 300 <= r.status <= 399 && r.location.GetOr("") != ""
    && w.parseReadableUrl(r.location.value, url) == Some(next)
    && (w.followRedirect.Some? ==> w.followRedirect.value(next))
  }

  /** Request `next` is where the answer to request `url` redirected. */
  ghost predicate LeadsTo(w: World, redirect: nat, url: Url, next: Url) {
    w.fetch(redirect, url).Answer? && Redirects(w, url, w.fetch(redirect, url).response, next)
  }

  ghost predicate LeadsOn(w: World, redirect: nat, url: Url) {
    exists next :: LeadsTo(w, redirect, url, next)
  }

  /** The answer to this request is a success with no bot wall, and `body` is its bounded body. */
  ghost predicate AnswersWith(w: World, redirect: nat, url: Url, body: seq<byte>, limit: nat, truncate: bool) {
    && w.fetch(redirect, url).Answer?
    && var r := w.fetch(redirect, url).response;
       200 <= r.status < 300 && !IsBotWall(w, r) && BoundedBody(r.declared, r.stream, limit, truncate) == Body(body)
  }

  /** At most six requests are sent, each allowed before it was sent, and each after the first is
      where the one before it redirected. */
  lemma {:induction false} RequestsAreAllowed(w: World, url: Url, redirect: nat, limit: nat, truncate: bool)
    requires redirect <= MAX_REDIRECTS + 1
    ensures var requests := Follow(w, url, redirect, limit, truncate).1;
            && |requests| <= MAX_REDIRECTS + 1 - redirect
            && (requests != [] ==> requests[0] == url)
            && (forall i :: 0 <= i < |requests| ==> Allowed(w, redirect + i, requests[i]))
            && (forall i :: 0 <= i < |requests| - 1 ==> LeadsTo(w, redirect + i, requests[i], requests[i + 1]))
    decreases MAX_REDIRECTS + 1 - redirect
  {
    hide Finished;
    var requests := Follow(w, url, redirect, limit, truncate).1;
    if |requests| > 1 ||
       (requests != [] && w.fetch(redirect, url).Answer? && IsRedirect(w.fetch(redirect, url).response)) {
      var next := NextUrl(w, url, w.fetch(redirect, url).response);
      if next.Some? {
        RequestsAreAllowed(w, next.value, redirect + 1, limit, truncate);
        var rest := Follow(w, next.value, redirect + 1, limit, truncate).1;
        assert requests == [url] + rest;
        forall i | 0 <= i < |requests| ensures Allowed(w, redirect + i, requests[i]) {
          if i > 0 { assert Allowed(w, redirect + 1 + (i - 1), rest[i - 1]); }
        }
        forall i | 0 <= i < |requests| - 1 ensures LeadsTo(w, redirect + i, requests[i], requests[i + 1]) {
          if i > 0 { assert LeadsTo(w, redirect + 1 + (i - 1), rest[i - 1], rest[i]); }
        }
      }
    }
  }

  /** A page is the bounded body of the last request's answer. */
  lemma {:induction false} PageIsLastAnswer(w: World, url: Url, redirect: nat, limit: nat, truncate: bool)
    requires Follow(w, url, redirect, limit, truncate).0.Page?
    ensures var (outcome, requests) := Follow(w, url, redirect, limit, truncate);
            && requests != [] && outcome.url == requests[|requests| - 1] && |outcome.body| <= limit
            && AnswersWith(w, redirect + |requests| - 1, outcome.url, outcome.body, limit, truncate)
    decreases MAX_REDIRECTS + 1 - redirect
  {
    if w.fetch(redirect, url).Answer? && IsRedirect(w.fetch(redirect, url).response) {
      PageIsLastAnswer(w, NextUrl(w, url, w.fetch(redirect, url).response).value, redirect + 1, limit, truncate);
    }
  }

  /** "Too many redirects" means exactly that all six requests were sent and the last was redirected once more. */
  lemma {:induction false} TooManyMeansAllRedirected(w: World, url: Url, redirect: nat, limit: nat, truncate: bool)
    requires redirect <= MAX_REDIRECTS
    ensures var (outcome, requests) := Follow(w, url, redirect, limit, truncate);
            outcome.Error? && outcome.reason == TooManyRedirects <==>
              |requests| == MAX_REDIRECTS + 1 - redirect
              && LeadsOn(w, MAX_REDIRECTS, requests[|requests| - 1])
    decreases MAX_REDIRECTS + 1 - redirect
  {
    if w.fetch(redirect, url).Answer? && IsRedirect(w.fetch(redirect, url).response) {
      var next := NextUrl(w, url, w.fetch(redirect, url).response);
      if next.Some? {
        if redirect < MAX_REDIRECTS { TooManyMeansAllRedirected(w, next.value, redirect + 1, limit, truncate); }
        assert LeadsTo(w, redirect, url, next.value);
      }
    }
  }
}

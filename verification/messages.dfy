/** The runtime message listener: answers `GET_TIMESTAMP_LINK` and
    `SEEK_TO_MS` requests and stays silent on anything else. */
module Messages {
  import opened Outcomes
  import opened Playback

  const GET_TIMESTAMP_LINK: string := "GET_TIMESTAMP_LINK"
  const SEEK_TO_MS: string := "SEEK_TO_MS"

  /** A received message. `NotObject` covers a missing, falsy or
      non-object message. For an object, `kind` is its `type` field when
      that is a string, and `ms` is `Number(message.ms)`, `None` when not
      finite. */
  datatype Message = NotObject | Object(kind: Option<string>, ms: Option<int>)

  /** The object passed to `sendResponse`. */
  datatype Reply = LinkReply(link: Result<Link>) | SeekReply(seek: Result<int>)

  /** The response sent, if any, and the page afterwards. */
  datatype Exchange = Exchange(reply: Option<Reply>, page: Page)

  predicate IsRequest(m: Message, kind: string)
  {
    m.Object? && m.kind == Some(kind)
  }

  /** The listener body. A seek request whose `ms` is not finite is
      answered `invalid_ms` before the seek logic runs, so the page is left
      untouched. */
  function Respond(p: Page, m: Message): (r: Exchange)
    ensures r.reply.None? <==> !IsRequest(m, GET_TIMESTAMP_LINK) && !IsRequest(m, SEEK_TO_MS)
    ensures r.reply.None? ==> r.page == p
    ensures IsRequest(m, GET_TIMESTAMP_LINK) ==>
              r == Exchange(Some(LinkReply(BuildTimestampUrl(p))), p)
    ensures IsRequest(m, SEEK_TO_MS) && m.ms.None? ==>
              r == Exchange(Some(SeekReply(Err(InvalidMs))), p)
    ensures IsRequest(m, SEEK_TO_MS) && m.ms.Some? ==>
              r.reply == Some(SeekReply(SeekToMs(p, m.ms.value).result))
              && r.page == SeekToMs(p, m.ms.value).page
  {
    match m
    case NotObject => Exchange(None, p)
    case Object(kind, ms) =>
      if kind == Some(GET_TIMESTAMP_LINK) then
        Exchange(Some(LinkReply(BuildTimestampUrl(p))), p)
      else if kind == Some(SEEK_TO_MS) then
        match ms
        case None => Exchange(Some(SeekReply(Err(InvalidMs))), p)
        case Some(v) =>
          var s := SeekToMs(p, v);
          Exchange(Some(SeekReply(s.result)), s.page)
      else
        Exchange(None, p)
  }

  /** Every reply carries only the errors of its row in the message table:
      a link request fails with `not_on_episode` or `timestamp_unavailable`,
      a seek request with `invalid_ms` or `progressbar_not_found`. */
  lemma ReplyErrorsMatchTable(p: Page, m: Message)
    ensures Respond(p, m).reply.Some? && Respond(p, m).reply.value.LinkReply? &&
            Respond(p, m).reply.value.link.Err? ==>
              Respond(p, m).reply.value.link.error in {NotOnEpisode, TimestampUnavailable}
    ensures Respond(p, m).reply.Some? && Respond(p, m).reply.value.SeekReply? &&
            Respond(p, m).reply.value.seek.Err? ==>
              Respond(p, m).reply.value.seek.error in {InvalidMs, ProgressBarNotFound}
  {
  }

  /** A page without an episode context answers a link request with
      `not_on_episode`, whatever the progress control holds; one with an
      episode context but no control answers `timestamp_unavailable`. */
  lemma LinkRequestErrors(p: Page, m: Message)
    requires IsRequest(m, GET_TIMESTAMP_LINK)
    ensures EpisodeUrl(p).None? ==> Respond(p, m).reply == Some(LinkReply(Err(NotOnEpisode)))
    ensures EpisodeUrl(p).Some? && p.progress.None? ==>
              Respond(p, m).reply == Some(LinkReply(Err(TimestampUnavailable)))
  {
  }

  /** A successful seek request followed by a link request on an episode
      page reports the applied offset in whole seconds. */
  lemma SeekRequestThenLinkRequest(p: Page, seek: Message, get: Message)
    requires IsRequest(seek, SEEK_TO_MS) && IsRequest(get, GET_TIMESTAMP_LINK)
    requires EpisodeUrl(p).Some?
    requires var r := Respond(p, seek).reply; r.Some? && r.value.SeekReply? && r.value.seek.Ok?
    ensures var after := Respond(p, seek);
            var link := Respond(after.page, get).reply.value.link;
            link.Ok? && link.value.seconds == after.reply.value.seek.value / 1000
  {
    SeekThenLink(p, seek.ms.value);
  }
}

/** Progress reader, link builder and seek actuator over a snapshot of the
    page. The snapshot holds what the script queries from the document: the
    context-item link (already resolved against the page origin), the page
    address, and the progress range control. */
module Playback {
  import opened Outcomes
  import opened Urls
  import Decimal

  /** The progress range control: `value` and `max` as `Number()` reads
      them, `None` when that reading is not finite. */
  datatype Control = Control(value: Option<int>, max: Option<int>)

  /** What the content script can see of the page. `contextLink` is `None`
      when there is no context-item link or its `href` is empty. */
  datatype Page = Page(contextLink: Option<Url>, location: Url, progress: Option<Control>)

  /** A successful link: the episode address with `t` set, and the seconds. */
  datatype Link = Link(url: Url, seconds: int)

  /** A seek's answer together with the page as it is after the write. */
  datatype Seeked = Seeked(result: Result<int>, page: Page)

  const EPISODE_PREFIX: string := "/episode/"
  const TIME_PARAM: string := "t"

  predicate IsEpisode(u: Url)
  {
    EPISODE_PREFIX <= u.path
  }

  predicate ContextQualifies(p: Page)
  {
    p.contextLink.Some? && IsEpisode(p.contextLink.value)
  }

  /** `getCurrentMs`: the control's value, absent with the control. */
  function CurrentMs(p: Page): (r: Option<int>)
    ensures p.progress.None? ==> r.None?
    ensures p.progress.Some? ==> r == p.progress.value.value
  {
    match p.progress
    case None => None
    case Some(c) => c.value
  }

  /** `getMaxMs`: the control's maximum, absent with the control. */
  function MaxMs(p: Page): (r: Option<int>)
    ensures p.progress.None? ==> r.None?
    ensures p.progress.Some? ==> r == p.progress.value.max
  {
    match p.progress
    case None => None
    case Some(c) => c.max
  }

  /** `getEpisodeUrl`: the context link when it is on an episode path, else
      the page address when that is, else nothing. */
  function EpisodeUrl(p: Page): (r: Option<Url>)
    ensures r.Some? ==> IsEpisode(r.value)
    ensures ContextQualifies(p) ==> r == p.contextLink
    ensures !ContextQualifies(p) && IsEpisode(p.location) ==> r == Some(p.location)
    ensures r.None? <==> !ContextQualifies(p) && !IsEpisode(p.location)
  {
    if p.contextLink.Some? && IsEpisode(p.contextLink.value) then p.contextLink
    else if IsEpisode(p.location) then Some(p.location)
    else None
  }

  /** `buildTimestampUrl`. The episode context is checked before the offset,
      so a page with no episode reports `not_on_episode` whatever the control
      holds. On success `seconds` is the offset floored to whole seconds and
      the URL differs from the episode URL only in its `t` parameter. */
  function BuildTimestampUrl(p: Page): (r: Result<Link>)
    ensures r == Err(NotOnEpisode) <==> EpisodeUrl(p).None?
    ensures r == Err(TimestampUnavailable) <==> EpisodeUrl(p).Some? && CurrentMs(p).None?
    ensures r.Ok? <==> EpisodeUrl(p).Some? && CurrentMs(p).Some?
    ensures r.Ok? ==>
              var ms := CurrentMs(p).value;
              var u := EpisodeUrl(p).value;
              && r.value.seconds * 1000 <= ms < r.value.seconds * 1000 + 1000
              && r.value.url.origin == u.origin
              && r.value.url.path == u.path
              && r.value.url.fragment == u.fragment
              && Lookup(r.value.url.query, TIME_PARAM) == Some(Decimal.IntToString(r.value.seconds))
              && Count(r.value.url.query, TIME_PARAM) == 1
              && Without(r.value.url.query, TIME_PARAM) == Without(u.query, TIME_PARAM)
              && r.value.url.query == SetParam(u.query, TIME_PARAM, Decimal.IntToString(r.value.seconds))
  {
    match EpisodeUrl(p)
    case None => Err(NotOnEpisode)
    case Some(u) =>
      match CurrentMs(p)
      case None => Err(TimestampUnavailable)
      case Some(ms) =>
        var seconds := ms / 1000;
        var q := SetParam(u.query, TIME_PARAM, Decimal.IntToString(seconds));
        Ok(Link(u.(query := q), seconds))
  }

  function JsMax(a: int, b: int): int { if a >= b then a else b }
  function JsMin(a: int, b: int): int { if a <= b then a else b }

  /** `seekToMs`: with no control, `progressbar_not_found` and nothing is
      written; otherwise `Math.min(Math.max(ms, 0), max ?? ms)` is written to
      the control and returned. A known maximum bounds the result to
      [0, max]; an unknown one leaves `ms` exactly as requested, negative
      values included. */
  function SeekToMs(p: Page, ms: int): (r: Seeked)
    ensures r.result == Err(ProgressBarNotFound) <==> p.progress.None?
    ensures r.result.Ok? <==> p.progress.Some?
    ensures r.result.Err? ==> r.page == p
    ensures r.result.Ok? ==>
              && r.page == p.(progress := Some(p.progress.value.(value := Some(r.result.value))))
              && CurrentMs(r.page) == Some(r.result.value)
              && MaxMs(r.page) == MaxMs(p)
    ensures r.result.Ok? && MaxMs(p).None? ==> r.result.value == ms
    ensures r.result.Ok? && MaxMs(p).Some? ==>
              var max := MaxMs(p).value;
              && (max >= 0 ==> 0 <= r.result.value <= max)
              && (0 <= ms <= max ==> r.result.value == ms)
              && (ms < 0 <= max ==> r.result.value == 0)
              && (ms > max ==> r.result.value == max)
              && (max < 0 ==> r.result.value == max)
  {
    match p.progress
    case None => Seeked(Err(ProgressBarNotFound), p)
    case Some(c) =>
      var clamped := JsMin(JsMax(ms, 0), MaxMs(p).GetOr(ms));
      Seeked(Ok(clamped), p.(progress := Some(c.(value := Some(clamped)))))
  }

  /** Seeking then asking for a link reports the offset that was actually
      applied, floored to seconds; the episode URL is not affected. */
  lemma SeekThenLink(p: Page, ms: int)
    requires SeekToMs(p, ms).result.Ok?
    requires EpisodeUrl(p).Some?
    ensures BuildTimestampUrl(SeekToMs(p, ms).page).Ok?
    ensures BuildTimestampUrl(SeekToMs(p, ms).page).value.seconds == SeekToMs(p, ms).result.value / 1000
  {
    var q := SeekToMs(p, ms).page;
    assert EpisodeUrl(q) == EpisodeUrl(p);
  }

  /** The `t` value in a successful link reads back as the seconds value. */
  lemma LinkTimeReadsBack(p: Page)
    requires BuildTimestampUrl(p).Ok?
    ensures Decimal.ParseInt(Lookup(BuildTimestampUrl(p).value.url.query, TIME_PARAM).value)
            == Some(BuildTimestampUrl(p).value.seconds)
  {
    Decimal.IntToStringRoundTrip(BuildTimestampUrl(p).value.seconds);
  }

  /** An offset of 125,400 ms on an episode page gives 125 seconds and
      `t=125`. */
  lemma ExampleFloor(origin: string)
    ensures var p := Page(None, Url(origin, "/episode/abc", [], ""), Some(Control(Some(125400), None)));
            BuildTimestampUrl(p) == Ok(Link(Url(origin, "/episode/abc", [Param("t", "125")], ""), 125))
  {
    var p := Page(None, Url(origin, "/episode/abc", [], ""), Some(Control(Some(125400), None)));
    assert EPISODE_PREFIX <= "/episode/abc";
    assert 125400 / 1000 == 125;
    assert Decimal.IntToString(125) == "125" by {
      assert Decimal.NatToString(1) == "1";
      assert Decimal.NatToString(12) == "12";
      assert Decimal.NatToString(125) == "125";
    }
    assert SetParam([], "t", "125") == [Param("t", "125")];
  }
}

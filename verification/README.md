# Spotify timestamp share: content-script decision logic

A Dafny model of the decision logic in `content.js`, the content script of a
browser extension that works with the Spotify web player. The script does three
things:

- it builds a shareable link to the playing podcast episode that carries the
  current position as a `t` query parameter;
- it seeks the player's progress bar when another part of the extension asks it
  to;
- it adds a "Copy link to Episode at current time" entry to the share menu,
  right after the player's own "Copy link to Episode" entry when that entry is
  a direct child of the menu, and at the end of the menu otherwise.

The document is replaced by plain values:

- a page snapshot (`Playback.Page`): the context-item link, already resolved
  against the page origin, the page address, and the progress range control,
  whose `value` and `max` are kept as `Number()` reads them (`None` when not
  finite);
- a menu (`MenuInjector.Menu`): a sequence of entries in document order. Each
  entry records whether it carries the injection marker, whether it is a direct
  child of the menu element, and its button. A button records its
  `role="menuitem"` flag, its own text, and its label-bearing descendants;
- a received message (`Messages.Message`).

Modules:

- `Outcomes`: the tagged `{ok, ...}` results and the four error strings.
- `Text`: JavaScript `trim`, `toLowerCase` and `includes`.
- `Decimal`: `String(n)` for integers and its inverse.
- `Urls`: a parsed URL and the `URLSearchParams.set` update defined in section
  6.2 of the WHATWG URL Standard.
- `Playback`: `getCurrentMs`, `getMaxMs`, `getEpisodeUrl`, `buildTimestampUrl`
  and `seekToMs`.
- `MenuInjector`: `getMenuLabelNode`, `getButtonLabel`, `findMenuItemButton`,
  `createMenuItem` and `injectIntoMenu`.
- `Messages`: the body of the runtime message listener.

Seeking with an unknown maximum does not clamp at zero: content.js:67 computes
`Math.min(Math.max(ms, 0), max ?? ms)`, which equals `ms` for every `ms`,
negative values included, when `max` is null. `SeekToMs` returns `ms`
unchanged in that case.

## Model

| member | source | states |
|---|---|---|
| `Playback.CurrentMs` | content.js:11-16 | The control's value; None when there is no control or its reading is not finite. |
| `Playback.MaxMs` | content.js:18-23 | The control's maximum; None when there is no control or its reading is not finite. |
| `Playback.EpisodeUrl` | content.js:25-41 | A context link on an `/episode/` path wins over the page address. Otherwise the page address is used if it is on an episode path. Otherwise there is none. Any result is on an episode path. |
| `Playback.BuildTimestampUrl` | content.js:43-58 | With no episode URL the result is `not_on_episode`, whatever the control holds. With an episode URL but no readable offset it is `timestamp_unavailable`. Otherwise it succeeds with `seconds` = floor(ms/1000), shown by `seconds*1000 <= ms < seconds*1000 + 1000`. The URL keeps the episode URL's origin, path and fragment. It holds exactly one `t`, whose value is the decimal `seconds`. Every other query parameter is unchanged and in order. The query is the episode URL's query after `set("t", …)`, so a replaced `t` stays where the first old `t` stood. |
| `Playback.SeekToMs` | content.js:60-74 | No control gives `progressbar_not_found` and the page is untouched. A present control always gives an ok result, and the applied value is written to the control and reads back as the current offset. With a known max ≥ 0 the value lies in [0, max]: it is `ms` inside the range, 0 below it, max above it. With a negative max it is max. With an unknown max it is exactly `ms`. |
| `Playback.SeekThenLink` | content.js:49-57 | After a successful seek on an episode page, the link's seconds are the applied offset floored to seconds. This relies on the written value being stored as-is; a browser would also sanitise it (see "## Left out"). |
| `Playback.LinkTimeReadsBack` | content.js:54-57 | The `t` value of a successful link parses back to its `seconds`. |
| `Playback.ExampleFloor` | content.js:54-57 | 125,400 ms on `/episode/abc` with no query gives seconds 125 and the single parameter `t=125`. |
| `Urls.SetParam` | content.js:55 | `searchParams.set("t", …)` leaves exactly one `t`, which carries the new value. Pairs with other names keep their values and order. When there was no `t`, the pair is appended at the end. Otherwise the pairs before the first old `t` are unchanged, the new pair takes that position, and the later pairs are kept except for any other `t`. |
| `Urls.SetParamIdempotent` | content.js:55 | Setting the same parameter twice gives the same list as setting it once. |
| `Decimal.IntToString` | content.js:55 | `String(seconds)` starts with `-` exactly for negative values. After the sign come only decimal digits, at least one, with no leading zero unless the value is 0, which is written "0". |
| `Decimal.IntToStringRoundTrip` | content.js:55 | Reading the decimal form of any integer back gives that integer. |
| `Decimal.IntToStringInjective` | content.js:55 | Distinct seconds values give distinct `t` values. |
| `Text.Trim` | content.js:112 | The result is a slice of the input. Everything cut off is ECMAScript white space or a line terminator. The result neither starts nor ends with one. |
| `Text.TrimIdempotent` | content.js:112 | Trimming a trimmed label changes nothing. |
| `Text.ToLower` | content.js:182 | Lower-casing keeps the length and leaves no upper-case ASCII letter. Each upper-case letter becomes its lower-case partner and every other character is kept. |
| `Text.ContainsIffOccurs` | content.js:182 | `includes` holds exactly when the pattern occurs at some position of the string. |
| `MenuInjector.LabelNodeIndex` | content.js:98-107 | Any label node found is a descendant of the button. |
| `MenuInjector.LabelNodeIsBestRanked` | content.js:98-107 | The four-selector cascade (`[data-encore-id="text"]`, `[data-encore-id="type"]`, `span[dir="auto"]` with `dir` compared without regard to ASCII case, `span`) picks the earliest descendant among those of the best priority. It finds nothing exactly when no descendant is a span or has a text/type encore id. |
| `MenuInjector.ButtonLabel` | content.js:109-113 | The label never starts or ends with white space. |
| `MenuInjector.FindMenuItemButton` | content.js:144-149 | The result is the first entry in document order whose button is a menu item and whose label the matcher accepts. None means no entry qualifies. |
| `MenuInjector.FindTemplate` | content.js:181-185 | The template is the first menu-item button whose lower-cased label contains "copy link to episode". |
| `MenuInjector.Relabel` | content.js:167-170 | A button with a label node now has the label "Copy link to Episode at current time". A button without one is unchanged. |
| `MenuInjector.CreateMenuItem` | content.js:151-174 | The clone carries the item marker and its button carries the action marker. It sits as a child of the menu and keeps the menu-item role. Its label is the new label when the template had a label node, and the template's label otherwise. |
| `MenuInjector.Insert` | content.js:191-195 | Inserting grows the menu by exactly one. The new entry is at the given position and every old entry keeps its order. |
| `MenuInjector.Inject` | content.js:176-198 | It answers true exactly when no entry carries the marker and some entry is a template. A false answer leaves the menu unchanged. On success the clone of the first template goes right after the template's entry when that entry is a direct child, and at the end otherwise. |
| `MenuInjector.InjectIdempotent` | content.js:176-179 | A second injection into the menu the first one produced answers false and changes nothing. |
| `MenuInjector.InjectKeepsOneMarker` | content.js:157 | A successful injection leaves exactly one marked entry, and a menu with at most one marked entry keeps at most one. |
| `Messages.Respond` | content.js:249-265 | Non-objects and unknown kinds get no response and the page is untouched. `GET_TIMESTAMP_LINK` gets the link result. `SEEK_TO_MS` with a non-finite `ms` gets `invalid_ms`, with the page untouched. Any other `SEEK_TO_MS` gets the seek result and the page it leaves behind. |
| `Messages.ReplyErrorsMatchTable` | content.js:252-264 | A link reply can only fail with `not_on_episode` or `timestamp_unavailable`. A seek reply can only fail with `invalid_ms` or `progressbar_not_found`. |
| `Messages.LinkRequestErrors` | content.js:252-255 | A link request on a page with no episode context answers `not_on_episode`. One with an episode context but no progress control answers `timestamp_unavailable`. |
| `Messages.SeekRequestThenLinkRequest` | content.js:257-263 | A successful seek request, then a link request on an episode page, reports the applied offset in whole seconds. |

## Left out

- Event wiring is not modelled: the MutationObserver, its added-node scan, and the `DOMContentLoaded` deferral (content.js:219-245).
- `findShareMenu` and `tryInjectMenuItem` (content.js:200-217) are not modelled. They query the whole document and walk to the closest `ul[role="menu"]`. The model starts from that menu.
- The clipboard write and its textarea / `execCommand` fallback (content.js:80-96) are foreign browser calls.
- The click handler `handleMenuClick` (content.js:115-142) is async and uses timers. Only its label texts and its 1500 ms revert delay are kept, as constants in `MenuInjector`.
- The `input` and `change` events fired after a seek (content.js:70-71) are host side effects.
- Real DOM cloning is abstracted away. So is the removal of the `aria-expanded`, `aria-haspopup`, `aria-disabled` and `disabled` attributes (content.js:163-166), and so is binding the click listener.
- The message transport (`browser`/`chrome` runtime, `sendResponse`) is replaced by `Respond`'s return value.
- `URL` parsing, relative-`href` resolution and serialisation (`url.toString()`, percent-encoding) are not modelled. The link is returned as a structured URL, not as text. An `href` that fails to parse (which would throw) is not modelled.
- `Number()` string parsing and floating-point values are not modelled. In particular `IntToString` always writes plain digits, while JavaScript writes magnitudes of 10^21 and above in exponent form ("1e+21"). Offsets, maxima and requested seek values are integers, and a non-finite reading is `None`. Fractional milliseconds are out of scope.
- Browser sanitisation of a range input's `value` is not modelled: clamping to `min`/`max` and rounding to `step` happen in the host. The model stores the written value as-is.
- ButtonLabel: the contract states only that the label is trimmed. Which text is used (the label node's, else the button's own) is fixed by its definition and by `LabelNodeIsBestRanked`, not restated.
- A button's `text` is its own text as read before relabelling. Setting the label node's text (content.js:169) also changes the button's text content in a real document; `Relabel` leaves `text` as it was. `ButtonLabel` reads the label node whenever there is one, so it cannot see the difference.
- `ToLower` maps only ASCII letters. Other characters are left unchanged, even those whose Unicode lower case is ASCII, such as the Kelvin sign.
- A menu entry is assumed to hold at most one button. The cloned entry's first button is taken to be the template button.
- `Inject` takes a menu value, so the `!menu` guard (content.js:177) has no counterpart. Its only caller passes a menu it has found.
- The `createMenuItem` failure branches (content.js:154 and 160) cannot be reached in this abstraction. The template always has an enclosing entry, and that entry holds the button.

# kami bootstrap script, modelled in Dafny

The kami web client starts from one browser script, `assets/js/app.js`. This project models the three small pieces of logic in that script. It also models how they are combined when the UI component is mounted.

- **Cookie reader** (`getCookie`, module `Cookie`). The reader takes the already URL-decoded cookie header and splits it on `;`. It strips the leading spaces from each segment. It returns the text after `name=` from the first segment that begins with `name=`, and `""` when no segment does. The reader is modelled in two forms:
  - the loop the script runs, `Cookie.GetCookie`, a `for` loop with an inner `while` loop;
  - the specification the loop is proved against, `Cookie.CookieValue`.

  `Split` follows JavaScript's `split` on a one-character separator. It has `Join` as its inverse.
- **Socket URL** (`getSocketUrl`, module `Socket`). This is a pure function of the page's protocol and host. `ParseSocketUrl` reads a URL back: it recovers the scheme choice and host from every URL the builder makes, and it accepts only such URLs.
- **Idle monitor** (`idle`, `resetTimer`, `inactivateIdle`, `activate`, `inactivate`, module `Idle`). This is a class, `IdleMonitor`.
  - The timer handle `t` becomes an optional integer deadline.
  - The activity port becomes an append-only log of booleans.
  - Handling an input event is the method `ResetTimer(now)`.
  - Time passing, and an expired timer firing, is the method `Advance(now)`.

  Each method is proved against a pure transition on `Snapshot` values (`Reset`, `Expire`, `Step`, `Run`). The invariant and the cancel-and-restart properties are proved about those transitions.
- **Embed step** (module `Embed`). When the mount element exists, the component receives the record `{uid, loc, key, width, socketUrl}`. The record is built from three cookies, the window width and the socket URL. `Wrappers` holds the `Option` type.

Browser inputs become parameters:
- `document.cookie`, already decoded;
- `window.location.protocol` and `window.location.host`;
- `window.innerWidth`;
- whether `document.getElementById('kami-main')` found the element;
- the current time in milliseconds.

## Model

| member | source | states |
|---|---|---|
| Cookie.Split | assets/js/app.js:19 | splitting yields at least one part, and no part contains the separator |
| Cookie.SplitThenJoin | assets/js/app.js:19 | gluing the parts of a split back together with the separator gives the original header |
| Cookie.JoinThenSplit | assets/js/app.js:19 | joining separator-free parts and splitting again gives exactly those parts back |
| Cookie.SplitWithoutSeparator | assets/js/app.js:19 | a header without `;` is a single segment |
| Cookie.SplitAtSeparator | assets/js/app.js:19 | the text before the first `;` is the first segment, and the rest splits on its own |
| Cookie.StripLeadingSpaces | assets/js/app.js:22-24 | the result is a suffix of the segment, everything removed is a space, and the result does not start with a space |
| Cookie.StripSpacesPrefix | assets/js/app.js:22-24 | stripping spaces in front of text that does not start with a space leaves exactly that text |
| Cookie.Lookup | assets/js/app.js:20-29 | the text after `name=` in the first segment that matches once its leading spaces are stripped, or `""` when none does |
| Cookie.CookieValue | assets/js/app.js:16-30 | the value after `cname=` in the first `;`-separated segment of the header that matches once its leading spaces are stripped, or `""` |
| Cookie.LookupNotFound | assets/js/app.js:19-29 | when no segment, once stripped, begins with `name=`, the result is `""` |
| Cookie.LookupFirstMatch | assets/js/app.js:20-26 | when segment k is the first to match, the result is that segment's text after `name=`, whatever later segments hold |
| Cookie.LeastMatch | assets/js/app.js:20-26 | if any segment matches, there is a first one that does |
| Cookie.LookupCases | assets/js/app.js:20-29 | either no segment matches or some segment is the first match; there is no other case |
| Cookie.MatchedSegmentShape | assets/js/app.js:22-26 | a matching segment is exactly leading spaces, then `name=`, then the returned value; trailing spaces and further `=` stay in the value |
| Cookie.MatchingSegment | assets/js/app.js:22-26 | a segment of spaces, `name=` and any value matches, and returns exactly that value, trailing spaces and `=` included |
| Cookie.OtherNameDoesNotMatch | assets/js/app.js:25 | a segment whose name starts with a different character does not match |
| Cookie.CookieValueHasNoSeparator | assets/js/app.js:19-26 | the returned value never contains `;` |
| Cookie.CookieValueEmpty | assets/js/app.js:25-29 | `""` is returned if and only if no segment matches, or the first match has an empty value |
| Cookie.CookieValueOfSegments | assets/js/app.js:19-26 | on a header made of separator-free segments, the result is the value of the first matching segment |
| Cookie.SpaceAfterSeparatorIsSkipped | assets/js/app.js:19-26 | on `a=1; name=value` the cookie `name` reads `value`, so the space after `;` is skipped |
| Cookie.LongerNameDoesNotMatch | assets/js/app.js:17-25 | with name `a`, the segment `ab=1` does not match: the test is on the whole of `a=` |
| Cookie.MatchIsCaseSensitive | assets/js/app.js:17-25 | with name `a`, the segment `A=1` does not match |
| Cookie.MismatchNotFound | assets/js/app.js:17-29 | a one-segment header that does not start with a space and differs from `cname=` at some position yields `""` |
| Cookie.GetCookie | assets/js/app.js:16-30 | the loop returns exactly the first-match value of the specification, or `""` |
| Socket.SocketUrl | assets/js/app.js:32-36 | the URL starts with `wss://` if and only if the protocol is `https:`, starts with `ws://` otherwise, and ends with `/socket/websocket` |
| Socket.SocketUrlForms | assets/js/app.js:33-35 | the URL is `wss://` + host + `/socket/websocket` for `https:`, and `ws://` + host + `/socket/websocket` for any other protocol |
| Socket.ParseSocketUrlRoundTrip | assets/js/app.js:32-36 | the secure-or-not choice and the host can both be read back from the URL |
| Socket.ParseSocketUrlSound | assets/js/app.js:33-35 | every URL the parser accepts is `wss://` or `ws://`, then the host, then `/socket/websocket` |
| Socket.SocketUrlInjective | assets/js/app.js:33-35 | under one protocol, different hosts give different URLs |
| Idle.Start | assets/js/app.js:46-53 | right after `idle(app)`: no timer pending and nothing sent |
| Idle.Reset | assets/js/app.js:59-63 | `resetTimer` at `now`: `true` appended, the only deadline is now + 10000 |
| Idle.Expire | assets/js/app.js:55-57 | time reaches `now`: a due timer fires once, appending `false` and leaving no timer; otherwise only the clock moves |
| Idle.Step | assets/js/app.js:48-53 | every qualifying input runs `resetTimer`; a tick lets the timer fire when due |
| Idle.StartInv | assets/js/app.js:46-53 | after `idle(app)`, with no timer and nothing sent, the monitor invariant holds |
| Idle.ResetInv | assets/js/app.js:59-63 | `resetTimer` keeps the invariant |
| Idle.ExpireInv | assets/js/app.js:55-62 | time passing, and a due timer firing, keeps the invariant |
| Idle.StepInv | assets/js/app.js:46-63 | every event keeps the invariant, including an input while a timer is overdue; only ticks must not move the clock backwards |
| Idle.RunInv | assets/js/app.js:46-63 | any sequence of events whose ticks do not go back in time keeps the invariant |
| Idle.RunAppends | assets/js/app.js:38-44 | the activity port is only appended to |
| Idle.WellFormedLogCounts | assets/js/app.js:55-62 | in a log where every `false` directly follows a `true`, there are no more `false`s than `true`s |
| Idle.IdleReportsBoundedByActivity | assets/js/app.js:46-63 | from start-up, inactivity is never reported more often than activity |
| Idle.SecondInputPostponesReport | assets/js/app.js:59-62 | after inputs at t1 and t2, nothing more is sent before t2 + 10000; from then on exactly one `false` is sent |
| Idle.ReportOncePerDeadline | assets/js/app.js:55-62 | once a timer has fired, further ticks send nothing more |
| Idle.OverdueTimerCancelledByInput | assets/js/app.js:59-62 | an input that arrives while the timer is overdue cancels it with no `false` sent; the next report comes a full window after that input |
| Idle.ExpireReportsIffDue | assets/js/app.js:55-57 | a tick sends `false` if and only if the pending deadline has been reached, and sends nothing otherwise |
| Idle.IdleMonitor.constructor | assets/js/app.js:46-53 | the new monitor has no pending timer and has sent nothing |
| Idle.IdleMonitor.Activate | assets/js/app.js:42-44 | appends `true` to the activity port |
| Idle.IdleMonitor.Inactivate | assets/js/app.js:38-40 | appends `false` to the activity port |
| Idle.IdleMonitor.InactivateIdle | assets/js/app.js:55-57 | the timer callback appends `false` |
| Idle.IdleMonitor.ResetTimer | assets/js/app.js:59-63 | appends `true` even when already active; the only pending deadline is now + 10000, and any earlier one is discarded; the invariant is kept |
| Idle.IdleMonitor.Advance | assets/js/app.js:55-62 | a due timer fires exactly once, appending `false` and leaving no timer; otherwise nothing is sent and the deadline stays |
| Idle.ClickThenQuiet | assets/js/app.js:59-62 | after a click at 0, nothing more is sent at 9999 ms, and `false` is sent at 10000 ms |
| Idle.SecondClickRestarts | assets/js/app.js:59-62 | after clicks at 0 and 5000, nothing is sent at 10000 ms, and `false` is sent at 15000 ms |
| Embed.Flags | assets/js/app.js:81-83 | the record of the three cookie reads for `user-id`, `location-id` and `elm-key`, the window width and the socket URL |
| Embed.Bootstrap | assets/js/app.js:79-83 | a record exists exactly when the mount element exists; it holds the values read for `user-id`, `location-id` and `elm-key`, the given width, and the socket URL; the three cookie values hold no `;` |
| Embed.NoMountNoEmbed | assets/js/app.js:79-80 | without the mount element nothing is constructed |
| Embed.ExampleCookieIsHeader | assets/js/app.js:19 | the three example segments, joined with `;`, are the header text `user-id=42; location-id=7; elm-key=abc` |
| Embed.ExampleUserId | assets/js/app.js:81 | on `user-id=42; location-id=7; elm-key=abc`, `user-id` reads `42` |
| Embed.ExampleLocationId | assets/js/app.js:82 | on the same header, `location-id` reads `7`, past a segment that does not match |
| Embed.ExampleKey | assets/js/app.js:82 | on the same header, `elm-key` reads `abc` |
| Embed.EndToEndExample | assets/js/app.js:79-83 | on that header, with width 1024 and `https:` on `app.test`, the record is `{42, 7, abc, 1024, wss://app.test/socket/websocket}` |

## Left out

- `decodeURIComponent(document.cookie)` (line 18), including the error it throws on malformed escapes. The model takes the header as already decoded.
- The DOM and `window` reads (`location`, `innerWidth`, `getElementById`). They are parameters. The `!== undefined && !== null` test on the mount element becomes one boolean.
- `Elm.Kami.embed` itself and the `title` and `donk` port subscriptions (lines 85-93), with the page-title update, `console.log` and the audio clip. These are calls into a compiled UI artifact and browser media that are not part of this model. `idle(app)` on line 95 is the `Idle.IdleMonitor` constructor.
- `setTimeout`, `clearTimeout` and the browser event loop. Time is an integer number of milliseconds. A timer is an explicit deadline, and it fires when `Advance` reaches it. An input may arrive at any time, even while the timer is overdue. Traces only require that ticks do not move the clock backwards (`Idle.Enabled`).
- Which DOM events call `resetTimer` (lines 48-53). All six are one `Input` event.
- `import "phoenix_html"` and the bundler comments and imports. They are build plumbing.
- Idle.IdleMonitor.Advance: requires `clock <= now`, that is, time does not run backwards. The script itself makes no such demand, because the browser's clock supplies it.
- Idle.IdleMonitor: has an extra `clock` field, the time of the last event seen. It exists only to state that time is monotone and that a pending deadline lies at most 10000 ms ahead.

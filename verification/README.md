# Web proxy front end — a Dafny model

This project models the logic of a single-page "web proxy" front end. The user types an address. The page normalises and validates it, then builds a URL for a public relay endpoint (`https://api.allorigins.win/raw?url=` plus the percent-encoded address). The page keeps three things in memory:

- a back/forward navigation stack with a cursor;
- a most-recent-first history log;
- an error and a loading flag.

An embedded frame fetches the relay URL. It rewrites the relative `href`/`src` attributes of links, images, scripts and stylesheets against the address-bar text, drops image `srcset`, and shows a spinner, an error panel or the page. A history drawer groups the log by calendar day and hands a clicked entry's address back to the session.

Modules (one per file):

- `Wrappers` (`wrappers.dfy`): `Option`, which models `null` and operations that can throw.
- `Types` (`types.dfy`): the history record.
- `JsString` (`js_string.dfy`): the JavaScript string operations used:
  - `trim`, with its white-space set;
  - `startsWith`;
  - the truthiness of a nullable string;
  - `String(n)` for a status code.
- `UriComponent` (`uri_component.dfy`): `encodeURIComponent` over UTF-8, with a decoder as its partner.
- `ProxyApp` (`proxy_app.dfy`): the session controller of `src/components/ProxyApp.tsx`. It covers the normaliser, `loadUrl`, every navigation handler, the button guards and which main panel renders.
  - React's batching is modelled explicitly. A handler reads the render-time snapshot. Its queued setters apply in order to a pending state.
  - Sequences of user events are modelled, together with the invariant every reachable state keeps.
- `ProxyFrame` (`proxy_frame.dfy`): `src/components/ProxyFrame.tsx`:
  - `fixRelativeUrl` and `processHtml`, over a document given as its list of elements;
  - the fetch outcome, the error text and the three views.
- `HistoryDrawer` (`history_drawer.dfy`): `src/components/HistoryDrawer.tsx`. It covers grouping by day in first-occurrence order, the empty message and the entry click.

The browser services are parameters:

- URL parsing (`UrlOps`, and `parseBase`/`resolve` in `HtmlOps`);
- `DOMParser` and `outerHTML` (`parse`, `serialize`);
- the clock (`Clock`);
- the locale date label (`dateKey`);
- the fetch result (`FetchOutcome`).

### Behaviour of the code worth noting

The model follows the code as written. The trace lemmas describe single handler invocations. Each successful load of a new address also changes the query string, and that re-runs the query-string effect, which loads the address a second time (`ProxyApp.VisitThenQueryParam`). When React fires that effect is not modelled (see "Left out").

- **Visit A, visit B, back, visit C ends with the stack `[A, B, C]` and the cursor on C** (`ProxyApp.VisitBackVisit`). Textbook browser history would give `[A, C]`.
  - `handleGoBack` queues `cursor - 1` and then calls `loadUrl`. `loadUrl` reads the render-time cursor, which is still at the tip, so it appends the previous address again and queues `cursor + 1`.
  - So back yields `[A, B, A]` with the cursor unchanged at 1. The visit to C then keeps `[A, B]` and appends C.
- **Forward moves the cursor by two** (`ProxyApp.HandleGoForward`). The cursor lands one past the end of the new stack. So the cursor can equal the stack length; the invariant `Wf` bounds it by -1..length, not -1..length-1.
- **Back then forward does not return to the page left.** From `[A, B]` at B, back gives `[A, B, A]` and forward then reads the second A, so A shows again, with the cursor at 3, past the end (`ProxyApp.BackForwardStaysOnA`, `ProxyApp.VisitVisitBackForward`).
- **After a forward step, back can reload the current page.** With the cursor past the end, a visit to C appends it and leaves the cursor past the end again. Back then reads the entry just before the cursor, which is C itself, and stacks C twice (`ProxyApp.VisitPastEndThenBack`).
- **The query-string effect re-loads every newly loaded address.** After a first visit to A, the effect's load gives the stack `[A, A]`, the cursor 1 and two log entries (`ProxyApp.VisitThenQueryParam`).
- **The loading flag of the session is never observably set.** `setIsLoading(true)` and `setIsLoading(false)` are batched into the same render, so the session spinner never shows (`ProxyApp.LoadOutcomeShown`). The frame has its own spinner.
- **The frame's base address is the address-bar text.** `originalUrl` is `url`, not the loaded address. The frame's fetch effect depends on `[url, originalUrl]` (`src/components/ProxyFrame.tsx:39`), so every keystroke in the bar starts a new relay fetch, shows the frame spinner again and re-processes the page against the typed text as its base.
- **A thrown `Error` whose message is empty shows the frame, not the error panel.** The error state is set to `""`, which is falsy, so the iframe renders with the previous content (`ProxyFrame.FetchShows`).
- **The relative-URL guard tests the bare prefix `http`.** So a relative path such as `httpdocs/a.html` is not rewritten (`ProxyFrame.GuardExamples`).

## Model

| member | source | states |
|---|---|---|
| JsString.Trim | src/components/ProxyApp.tsx:37 | `trim` yields a string with no white space at either end, never longer than its input |
| JsString.TrimRemovesOnlyWhiteSpace | src/components/ProxyApp.tsx:37 | what `trim` drops is white space at the two ends only: its result occurs in the input between two all-white-space pieces |
| JsString.TrimOfPadded | src/components/ProxyApp.tsx:37 | for any core without white space at its ends, `trim` of that core padded by any white space on both sides returns exactly the core |
| JsString.TrimIdempotent | src/components/ProxyApp.tsx:37 | trimming an already trimmed address changes nothing |
| JsString.NatToDecimal | src/components/ProxyFrame.tsx:22 | the status code renders as a non-empty string of decimal digits with no leading zero |
| JsString.DecimalRoundTrip | src/components/ProxyFrame.tsx:22 | reading back the rendered status digits gives the status code |
| UriComponent.Encode | src/components/ProxyApp.tsx:47 | the encoded address holds only unreserved characters, `%` and upper-case hex digits, is never shorter, and equals the input when the input holds only unreserved characters |
| UriComponent.EncodeRoundTrip | src/components/ProxyApp.tsx:47 | percent-decoding then UTF-8-decoding the encoded address returns the original address |
| ProxyApp.Initial | src/components/ProxyApp.tsx:9-16 | the page starts well-formed with an empty history, both navigation buttons disabled, the drawer closed and only the welcome screen showing |
| ProxyApp.NewItem | src/components/ProxyApp.tsx:60-65 | the logged entry carries the loaded address, its host name as title, and the clock's id and timestamp |
| ProxyApp.BackEnabled | src/components/ProxyApp.tsx:180 | in a well-formed state the back button is enabled exactly when an entry exists before the cursor, so the handler's read is in bounds |
| ProxyApp.ForwardEnabled | src/components/ProxyApp.tsx:190 | in a well-formed state the forward button is enabled exactly when an entry exists after the cursor, so the handler's read is in bounds |
| ProxyApp.HandleQueryParam | src/components/ProxyApp.tsx:22-30 | an empty or missing `url` parameter does nothing; a valid one `p` (normalised) is appended after entry `min(cursor, length - 1)` of the stack, dropping any later entries, advances the cursor by one, becomes bar text and relay URL, is logged as a new item in front of the unchanged log, and clears the error; an invalid one leaves the parameter in the bar and sets the error; the state stays well-formed |
| ProxyApp.VisitThenQueryParam | src/components/ProxyApp.tsx:22-30 | the effect that follows a first visit to A loads A again, giving the stack `[A, A]`, the cursor 1 and two log entries |
| ProxyApp.Normalize | src/components/ProxyApp.tsx:37-40 | every normalised address is trimmed and starts with `http://` or `https://` |
| ProxyApp.NormalizeSpec | src/components/ProxyApp.tsx:37-40 | the normalised address ends with the trimmed input; it is the trimmed input exactly when that already had a scheme, and otherwise `https://` followed by it |
| ProxyApp.NormalizeOfNormal | src/components/ProxyApp.tsx:37-40 | an address already trimmed and with a scheme is left unchanged |
| ProxyApp.NormalizeIdempotent | src/components/ProxyApp.tsx:37-40 | normalising twice is the same as normalising once |
| ProxyApp.RelayUrlSpec | src/components/ProxyApp.tsx:47-48 | the relay URL starts with the relay endpoint, its `url` value decodes back to the address, and that value contains no `&` or `#` that could cut it short |
| ProxyApp.SliceTo | src/components/ProxyApp.tsx:53 | `slice(0, end)` returns a prefix, of length `end` when `0 <= end < length`, the whole sequence when `end` reaches the length |
| ProxyApp.PushStack | src/components/ProxyApp.tsx:51-56 | the new stack ends with the address; at the tip it is the old stack plus the address; behind the tip it is the first `cursor + 1` entries plus the address; every entry kept is an old entry in its old place |
| ProxyApp.LoadUrl | src/components/ProxyApp.tsx:32-81 | a valid address sets the bar and the relay URL, clears the error, logs one entry in front, pushes onto the stack and advances the cursor by one; an invalid one changes only the error, to the fixed message; loading ends lowered and the drawer is untouched |
| ProxyApp.LoadKeepsWf | src/components/ProxyApp.tsx:51-67 | a load started from a well-formed state by any handler keeps the cursor within -1..length (and -1 only for an empty stack) and only prepends to the history |
| ProxyApp.HandleInput | src/components/ProxyApp.tsx:207 | typing sets the address bar to the typed text and changes nothing else |
| ProxyApp.HandleSubmit | src/components/ProxyApp.tsx:83-88 | an empty bar does nothing; an invalid address only sets the error; a valid one `p` (the normalised bar text) is appended after entry `min(cursor, length - 1)` of the stack, dropping any later entries, advances the cursor by one, becomes bar text and relay URL, is logged as a new item in front of the unchanged log, and clears the error; the state stays well-formed |
| ProxyApp.HandleGoBack | src/components/ProxyApp.tsx:90-97 | disabled, nothing changes; enabled and valid, the bar and relay URL show the address stacked just before the cursor (the previous page, or the current one when a forward step left the cursor past the end), which is appended after entry `min(cursor, length - 1)`, dropping any later entries, the cursor stays put, the error is cleared and the entry is logged; invalid, the cursor steps back, the bar shows the stacked address and the error is set, while the stack, relay URL and history are kept; the drawer is untouched, the read is in bounds and the state stays well-formed |
| ProxyApp.HandleGoForward | src/components/ProxyApp.tsx:99-106 | disabled, nothing changes; enabled and valid, the bar and relay URL show the next address, the stack is cut after the cursor and that address appended, the cursor moves by two to one past the end, the error is cleared and the entry is logged; invalid, the cursor steps forward, the bar shows the stacked address and the error is set, while the stack, relay URL and history are kept; the drawer is untouched |
| ProxyApp.HandleClearUrl | src/components/ProxyApp.tsx:108-112 | the bar and relay URL are emptied and the error cleared, while stack, cursor, history and drawer are kept |
| ProxyApp.HandleHistoryItemClick | src/components/ProxyApp.tsx:114-118 | the drawer closes; a valid address `p` (normalised) is appended after entry `min(cursor, length - 1)` of the stack, dropping any later entries, advances the cursor by one, becomes bar text and relay URL, is logged as a new item in front of the unchanged log, and clears the error; an invalid one leaves the clicked text in the bar, sets the error and keeps relay URL, stack, cursor and history |
| ProxyApp.ToggleHistory | src/components/ProxyApp.tsx:150 | the drawer flag flips and nothing else changes |
| ProxyApp.CloseHistory | src/components/ProxyApp.tsx:280 | the drawer is closed and nothing else changes |
| ProxyApp.Step | src/components/ProxyApp.tsx:83-118 | every user action keeps the state well-formed and never removes history entries |
| ProxyApp.Run | src/components/ProxyApp.tsx:83-118 | any sequence of user actions keeps the state well-formed and the old history as a suffix of the new |
| ProxyApp.VisitPushes | src/components/ProxyApp.tsx:51-57 | visiting a normal, valid address appends it after entry `min(cursor, length - 1)` of the stack, dropping any later entries, advances the cursor by one and logs one entry; the cursor lands on the new entry unless a forward step had left it past the end |
| ProxyApp.VisitTwice | src/components/ProxyApp.tsx:51-57 | two visits from the start give the stack `[A, B]` with the cursor on B and two log entries |
| ProxyApp.BackThenVisit | src/components/ProxyApp.tsx:90-97 | from `[A, B]` at B, back then a visit to C gives `[A, B, C]` with the cursor on C and two more log entries |
| ProxyApp.VisitBackVisit | src/components/ProxyApp.tsx:51-97 | visit A, visit B, back, visit C ends with the stack `[A, B, C]`, the cursor at 2, C in the bar and four log entries |
| ProxyApp.BackForwardStaysOnA | src/components/ProxyApp.tsx:90-106 | from `[A, B]` at B, back then forward gives `[A, B, A]` with the cursor at 3 and A, not B, in the bar |
| ProxyApp.VisitPastEndThenBack | src/components/ProxyApp.tsx:51-97 | with the cursor past the end, a visit to C appends it and leaves the cursor past the end again; back then reloads C and stacks it twice |
| ProxyApp.VisitVisitBackForward | src/components/ProxyApp.tsx:51-106 | visit A, visit B, back, forward ends with the stack `[A, B, A]`, the cursor at 3, A in the bar and four log entries |
| ProxyApp.StepKeepsReachable | src/components/ProxyApp.tsx:83-118 | every handler keeps every stacked and logged address normalised and valid, besides well-formedness |
| ProxyApp.StackedAddressesReload | src/components/ProxyApp.tsx:90-106 | in any reachable state the address back or forward would load is already normal and valid, so it reloads unchanged |
| ProxyApp.EveryRunReachable | src/components/ProxyApp.tsx:51-57 | from the initial state, after any sequence of user actions, the cursor stays within -1..length and every stacked or logged address is normal and valid |
| ProxyApp.SelectPanels | src/components/ProxyApp.tsx:234-250 | the error box shows exactly for a truthy error and the spinner exactly while loading; with neither, exactly one of the frame (relay URL set) or the welcome screen shows |
| ProxyApp.LoadOutcomeShown | src/components/ProxyApp.tsx:68-79 | after a valid load only the frame shows; after an invalid one only the error box; the session spinner never shows |
| ProxyFrame.FixRelativeUrl | src/components/ProxyFrame.tsx:49-59 | only the named attribute can change, to its resolved address; it changes only when present, non-empty, not starting with `http` or `data:`, and resolvable; the tag and the other attributes are kept |
| ProxyFrame.DropSrcset | src/components/ProxyFrame.tsx:78-80 | the image loses exactly its `srcset` attribute |
| ProxyFrame.Pass | src/components/ProxyFrame.tsx:62-90 | one selector pass changes exactly the elements with that tag and keeps the element count and order |
| ProxyFrame.RewriteElement | src/components/ProxyFrame.tsx:62-90 | the per-element rewrite satisfies the element-wise specification: the address attribute of a, link (href), img and script (src) gets its fixed value, images lose `srcset`, nothing else changes |
| ProxyFrame.ElementRewrittenUnique | src/components/ProxyFrame.tsx:62-90 | the element-wise specification determines the rewritten element uniquely |
| ProxyFrame.RewriteDocumentSpec | src/components/ProxyFrame.tsx:62-92 | the four passes together keep every element in place, rewrite each per the element-wise specification, leave no image with `srcset` and leave other tags untouched |
| ProxyFrame.RewrittenIsRewriteDocument | src/components/ProxyFrame.tsx:62-92 | any document meeting the element-wise specification is the one the four passes produce |
| ProxyFrame.ShouldRewrite | src/components/ProxyFrame.tsx:51 | an absolute http or https address is never rewritten; a value starting with `/`, `.`, `#` or `?` always is; the empty value never is |
| ProxyFrame.RewriteDocument | src/components/ProxyFrame.tsx:62-92 | the four passes keep the number of elements and each element's tag in place |
| ProxyFrame.ProcessHtml | src/components/ProxyFrame.tsx:42-97 | an unparsable base address returns the html unchanged; otherwise the result serialises a document that is the parsed input rewritten element by element |
| ProxyFrame.GuardExamples | src/components/ProxyFrame.tsx:51 | a root-relative path is rewritten; an absolute address, a data URL, the empty value and the relative path `httpdocs/a.html` are not |
| ProxyFrame.FrameInitial | src/components/ProxyFrame.tsx:9-11 | a freshly mounted frame has no content and shows the spinner |
| ProxyFrame.StatusMessage | src/components/ProxyFrame.tsx:21-22 | the error for a failed response starts with the fixed `Failed to fetch content: ` prefix |
| ProxyFrame.StatusMessageFormat | src/components/ProxyFrame.tsx:21-22 | for every status and status text, the error is the prefix, then a decimal numeral without leading zero that reads back as the status, then a space and the status text |
| ProxyFrame.CaughtMessage | src/components/ProxyFrame.tsx:32 | an `Error`'s own message is kept; anything else thrown gives exactly `Failed to fetch content`; the text is empty only for an `Error` with an empty message |
| ProxyFrame.NotFoundMessage | src/components/ProxyFrame.tsx:21-22 | a 404 Not Found response yields `Failed to fetch content: 404 Not Found` |
| ProxyFrame.FrameBegin | src/components/ProxyFrame.tsx:15-16 | starting a fetch raises loading and clears the error, keeping the content |
| ProxyFrame.FrameSettle | src/components/ProxyFrame.tsx:18-35 | an ok response sets the content to the processed body; a failed response keeps the content and sets the status error; a rejection keeps the content and sets its message or the fixed fallback; loading always ends |
| ProxyFrame.View | src/components/ProxyFrame.tsx:99-128 | the spinner shows exactly while loading, the error panel exactly when not loading with a truthy error (showing that error), otherwise the iframe with the content |
| ProxyFrame.FetchShows | src/components/ProxyFrame.tsx:13-39 | a fetch shows the spinner, then the processed page, the status error, the thrown message or the fallback; a rejection with an empty message shows the old content |
| HistoryDrawer.IndexOfKey | src/components/HistoryDrawer.tsx:29 | the lookup finds a group with the label when one exists and reports none exactly when no group has it |
| HistoryDrawer.AddToGroups | src/components/HistoryDrawer.tsx:29-33 | one reducer step appends the item to its day's group, or opens a new group at the end for a new day, keeping labels distinct and other groups unchanged |
| HistoryDrawer.GroupHistory | src/components/HistoryDrawer.tsx:25-35 | the grouping has distinct labels, no empty group, and no groups exactly when the history is empty |
| HistoryDrawer.SameDaySameGroup | src/components/HistoryDrawer.tsx:26-33 | two visits land in the same group exactly when their timestamps have the same date label |
| HistoryDrawer.GroupKeys | src/components/HistoryDrawer.tsx:25-35 | the group labels are exactly the days occurring in the history |
| HistoryDrawer.GroupItems | src/components/HistoryDrawer.tsx:25-35 | each group holds exactly the history's items of its day, in history order |
| HistoryDrawer.GroupOrder | src/components/HistoryDrawer.tsx:25-35 | groups appear in the order their days first occur in the history |
| HistoryDrawer.GroupPartition | src/components/HistoryDrawer.tsx:25-35 | the groups together hold every history item exactly as often as the history does |
| HistoryDrawer.GroupSizes | src/components/HistoryDrawer.tsx:25-35 | the group sizes add up to the history length |
| HistoryDrawer.ContiguousFlatten | src/components/HistoryDrawer.tsx:25-35 | when each day's visits form one unbroken run, reading the groups in order gives back the history itself |
| HistoryDrawer.View | src/components/HistoryDrawer.tsx:56-65 | the empty-history message shows exactly when the history is empty; otherwise the non-empty list of day groups shows |
| HistoryDrawer.ClickedUrl | src/components/HistoryDrawer.tsx:69 | the address an entry's click hands over is that of the `j`-th visit, in history order, among the visits of that entry's day |
| HistoryDrawer.ClickedEntryReloads | src/components/HistoryDrawer.tsx:65-69 | clicking any entry in a reachable session reloads the address it hands over unchanged, clears the error, closes the drawer, advances the cursor and logs it first |

## Left out

- The network: the relay fetch and the reading of its body are an input (`FetchOutcome`). The race between overlapping fetches when the relay URL changes mid-flight is not modelled; each fetch settles before the next begins.
- WHATWG URL parsing (`new URL`, its `hostname`, relative resolution and `href`) is a parameter: validity, host name, base parsing and resolution are uninterpreted functions.
- `DOMParser` and `outerHTML` are parameters. A parsed document is the flat list of its elements in document order, with lower-case tag names.
- ProxyFrame.ProcessHtml: only the base-parse failure is modelled as the throwing path to the `catch`. Parsing, serialisation and resolution are total parameters, with failed resolution as `None`.
- The anchor `onclick` handler that `processHtml` installs is left out. It would send the browser to `?url=<href>`. It is a DOM property rather than an attribute, so `outerHTML` does not carry it into the served page.
- The router: the query string is browser state outside the model. The `navigate` call inside `loadUrl` is left out.
  - The body of the `useEffect` on `location.search` is modelled as the event `QueryParam`, but not when React fires it. It fires on mount and again after every load that changes the query string.
  - `Run`, `VisitTwice`, `BackThenVisit`, `VisitBackVisit` and `EveryRunReachable` therefore describe handler invocations without the effect's second load, unless the events include it. `EveryRunReachable` still covers runs that include it.
- When the frame's fetch effect fires is not modelled: `FrameBegin`, `FrameSettle` and `FetchShows` describe one fetch and its outcome. The re-fetch on every change of `url` or `originalUrl`, and hence on every keystroke, is not a model event.
- Logging: the `console.error` and `console.warn` calls (`src/components/ProxyFrame.tsx:31`, `:56`, `:94`; `src/components/ProxyApp.tsx:128`) have no effect on state and are left out.
- Share (`navigator.share`, the clipboard, `alert`) and open-in-new-tab (`window.open`) are left out: they only hand the bar text to the browser.
- Date and locale: `Date.now()` and `toISOString()` are the `Clock` parameter, and `toLocaleDateString()` is the `dateKey` parameter. `formatTime` is display only and is left out.
- JSX layout, CSS classes, icons, the iframe `sandbox` attribute and `App.tsx` (routing shell) are left out.
- HistoryDrawer.GroupHistory: the model orders all keys by insertion. JavaScript object keys behave differently in three cases. Keys that look like array indices enumerate in numeric order. `__proto__` misbehaves. Keys inherited from `Object.prototype`, such as `constructor` or `toString`, make `!groups[dateKey]` false, so `.push` throws. Locale date labels never take those forms.
- UriComponent.Encode: modelled over Unicode scalar values with UTF-8. A lone surrogate, which makes the JavaScript function throw, cannot occur in a Dafny string.
- The clear button only renders while the bar is non-empty; `Step` ignores a clear event otherwise.

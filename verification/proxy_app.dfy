/** The session controller of the proxy page: the address-bar text, the relay
    URL shown in the frame, the error and loading flags, the history log and
    the back/forward stack with its cursor.

    Every handler is a function of the state as it was at render time (the
    snapshot `snap`). React applies the setters a handler queues, in call
    order, after the handler returns: a plain value replaces the pending
    value, an updater `prev => f(prev)` is applied to it. The model keeps a
    second state, `pending`, that starts as the snapshot and absorbs each
    setter in turn; reads of state variables inside the handler go to `snap`.

    URL validity (`new URL(p)` not throwing) and the host name of a valid URL
    are parameters, as are the id and timestamp read from the clock. */
module ProxyApp {
  import opened Wrappers
  import opened JsString
  import opened Types
  import UriComponent

  const RelayPrefix: string := "https://api.allorigins.win/raw?url="
  const InvalidUrlMessage: string := "Invalid URL format. Please enter a valid web address."

  datatype Session = Session(
    url: string,               // the address-bar text
    proxyUrl: string,          // the relay URL handed to the frame, "" for none
    isLoading: bool,
    error: Option<string>,     // null is None
    history: seq<HistoryItem>, // most recent first
    showHistory: bool,
    stack: seq<string>,        // navigationStack
    cursor: int                // currentPosition
  )

  /** The state before any event: well-formed, both navigation buttons
      disabled, and only the welcome screen showing. */
  function Initial(): (s: Session)
    ensures Wf(s) && !BackEnabled(s) && !ForwardEnabled(s)
    ensures SelectPanels(s) == Panels(false, false, false, true)
    ensures s.history == [] && !s.showHistory
  {
    Session("", "", false, None, [], false, [], -1)
  }

  /** What the browser's URL parser says about a string. */
  datatype UrlOps = UrlOps(valid: string -> bool, hostname: string -> string)

  /** `Date.now().toString()` and `new Date().toISOString()` at the time of a load. */
  datatype Clock = Clock(id: string, timestamp: string)

  // ----- the address normaliser -------------------------------------------------

  predicate HasScheme(s: string) {
    StartsWith(s, "http://") || StartsWith(s, "https://")
  }

  /** An address in normal form: trimmed, with an http or https scheme. */
  predicate IsNormal(s: string) {
    HasScheme(s) && IsTrimmed(s)
  }

  /** The address normaliser of `loadUrl`: trim, then add `https://` unless
      the http or https scheme is already there. The result is always in
      normal form (see `NormalizeSpec` for how it relates to the input). */
  function Normalize(input: string): (r: string)
    ensures IsNormal(r)
  {
    var t := Trim(input);
    if HasScheme(t) then t
    else
      var r := "https://" + t;
      assert r[0] == 'h' && r[..8] == "https://";
      assert r[|r| - 1] == if t == [] then '/' else t[|t| - 1];
      r
  }

  /** The normaliser's result ends with the trimmed input; it is exactly the
      trimmed input when that already had a scheme, and otherwise `https://`
      followed by it. */
  lemma NormalizeSpec(input: string)
    ensures var r := Normalize(input);
            var t := Trim(input);
            && |t| <= |r| && r[|r| - |t|..] == t
            && (r == t <==> HasScheme(t))
            && (!HasScheme(t) ==> r[..|r| - |t|] == "https://")
  {
    var t := Trim(input);
    var r := Normalize(input);
    if !HasScheme(t) {
      assert r[|r| - |t|..] == t;
      assert r[..|r| - |t|] == "https://";
    }
  }

  /** The normaliser leaves an address in normal form alone. */
  lemma NormalizeOfNormal(s: string)
    requires IsNormal(s)
    ensures Normalize(s) == s
  {
    TrimOfTrimmed(s);
  }

  /** Normalising twice is normalising once. */
  lemma NormalizeIdempotent(input: string)
    ensures Normalize(Normalize(input)) == Normalize(input)
  {
    NormalizeOfNormal(Normalize(input));
  }

  // ----- the relay URL --------------------------------------------------------

  /** The relay URL for an address: the fixed endpoint, then the address
      percent-encoded as the `url` query value. */
  function RelayUrl(p: string): string
  {
    RelayPrefix + UriComponent.Encode(p)
  }

  /** The relay URL starts with the endpoint, its query value decodes back to
      the address, and that value holds no `&` or `#` that could end it. */
  lemma RelayUrlSpec(p: string)
    ensures var r := RelayUrl(p);
            && StartsWith(r, RelayPrefix)
            && UriComponent.Decode(r[|RelayPrefix|..]) == Some(p)
            && NoQueryBreak(r[|RelayPrefix|..])
  {
    var e := UriComponent.Encode(p);
    ConcatParts(RelayPrefix, e);
    UriComponent.EncodeRoundTrip(p);
    EncodedHasNoQueryBreak(e);
  }

  lemma EncodedHasNoQueryBreak(e: string)
    requires forall i :: 0 <= i < |e| ==> UriComponent.IsEncodedChar(e[i])
    ensures NoQueryBreak(e)
  {
  }

  lemma ConcatParts(a: string, b: string)
    ensures (a + b)[..|a|] == a && (a + b)[|a|..] == b
  {
  }

  /** No character of `q` ends a query value or starts another parameter. */
  predicate NoQueryBreak(q: string) {
    forall i :: 0 <= i < |q| ==> q[i] != '&' && q[i] != '#'
  }

  // ----- loadUrl ---------------------------------------------------------------

  /** `prev.slice(0, end)`: a negative end counts from the back, an end past
      the length stops at the length. */
  function SliceTo<T>(s: seq<T>, end: int): (r: seq<T>)
    ensures |r| <= |s| && r == s[..|r|]
    ensures 0 <= end ==> |r| == if end < |s| then end else |s|
  {
    if end < 0 then (if |s| + end < 0 then [] else s[..|s| + end])
    else if end < |s| then s[..end] else s
  }

  /** The navigation-stack updater `loadUrl` queues for address `p`, given the
      render-time cursor and stack length: at or past the last entry it
      appends `p`; before it, it keeps the first `cursor + 1` entries and
      then appends `p`. */
  function PushStack(cursor: int, snapLen: int, prev: seq<string>, p: string): (r: seq<string>)
    ensures |r| > 0 && r[|r| - 1] == p
    ensures cursor >= snapLen - 1 ==> r == prev + [p]
    ensures 0 <= cursor < snapLen - 1 && cursor < |prev| ==> r == prev[..cursor + 1] + [p]
    ensures |r| <= |prev| + 1 && r[..|r| - 1] == prev[..|r| - 1]
  {
    if cursor < snapLen - 1 then SliceTo(prev, cursor + 1) + [p] else prev + [p]
  }

  /** The history entry a successful load of `p` records. */
  function NewItem(p: string, ops: UrlOps, clock: Clock): (item: HistoryItem)
    ensures item.url == p && item.title == ops.hostname(p)
    ensures item.id == clock.id && item.timestamp == clock.timestamp
  {
    HistoryItem(clock.id, p, clock.timestamp, ops.hostname(p))
  }

  /** `loadUrl(input)` run with render-time state `snap`, its setters applied
      to `pending`. A valid address changes the address bar, the frame URL,
      the error, the stack, the cursor (by exactly one) and the history (one
      new entry in front) and nothing else; an invalid one changes only the
      error, to the fixed message. Either way the loading flag ends lowered. */
  function LoadUrl(snap: Session, pending: Session, input: string, ops: UrlOps, clock: Clock): (r: Session)
    ensures !r.isLoading
    ensures r.showHistory == pending.showHistory
    ensures ops.valid(Normalize(input)) ==>
      var p := Normalize(input);
      && r.url == p && r.proxyUrl == RelayUrl(p) && r.error == None
      && r.history == [NewItem(p, ops, clock)] + pending.history
      && r.stack == PushStack(snap.cursor, |snap.stack|, pending.stack, p)
      && r.cursor == pending.cursor + 1
    ensures !ops.valid(Normalize(input)) ==>
      && r.url == pending.url && r.proxyUrl == pending.proxyUrl
      && r.error == Some(InvalidUrlMessage)
      && r.history == pending.history && r.stack == pending.stack && r.cursor == pending.cursor
  {
    var started := pending.(error := None, isLoading := true);
    var p := Normalize(input);
    var settled :=
      if ops.valid(p) then
        started.(stack := PushStack(snap.cursor, |snap.stack|, started.stack, p),
                 cursor := started.cursor + 1,
                 history := [NewItem(p, ops, clock)] + started.history,
                 proxyUrl := RelayUrl(p), url := p)
      else
        started.(error := Some(InvalidUrlMessage));
    settled.(isLoading := false)
  }

  // ----- the shape of reachable states ------------------------------------------

  /** The cursor lies in -1..|stack| and is -1 exactly when the stack is
      empty, and the loading flag is never seen set (it is raised and
      lowered inside one batch). The cursor can equal |stack|: see
      `HandleGoForward`. */
  predicate Wf(s: Session) {
    && -1 <= s.cursor <= |s.stack|
    && (s.cursor == -1 <==> s.stack == [])
    && !s.isLoading
  }

  /** `history` grew only at the front: the old log is a suffix of the new. */
  predicate HistoryExtends(before: seq<HistoryItem>, after: seq<HistoryItem>) {
    |before| <= |after| && after[|after| - |before|..] == before
  }

  /** The pending state a load may start from inside a handler: the snapshot,
      with at most the address bar changed and the cursor moved by the
      handler's own updater. */
  predicate LoadStart(snap: Session, pending: Session) {
    && pending.stack == snap.stack && pending.history == snap.history
    && !pending.isLoading
    && (|| pending.cursor == snap.cursor
        || (pending.cursor == snap.cursor - 1 && snap.cursor > 0)
        || (pending.cursor == snap.cursor + 1 && snap.cursor < |snap.stack| - 1))
  }

  lemma LoadKeepsWf(snap: Session, pending: Session, input: string, ops: UrlOps, clock: Clock)
    requires Wf(snap) && LoadStart(snap, pending)
    ensures Wf(LoadUrl(snap, pending, input, ops, clock))
    ensures HistoryExtends(snap.history, LoadUrl(snap, pending, input, ops, clock).history)
  {
    var r := LoadUrl(snap, pending, input, ops, clock);
    if ops.valid(Normalize(input)) {
      assert r.history[1..] == pending.history;
      if snap.cursor < |snap.stack| - 1 {
        assert snap.cursor >= 0;
        assert |r.stack| == snap.cursor + 2;
      } else {
        assert |r.stack| == |snap.stack| + 1;
      }
    }
  }

  // ----- handlers -------------------------------------------------------------

  /** The back button is enabled (`disabled={currentPosition <= 0}`). In a
      well-formed state it is enabled exactly when there is a stacked entry
      before the cursor, so the handler's read is in bounds. */
  predicate BackEnabled(s: Session): (b: bool)
    ensures Wf(s) ==> (b <==> 0 <= s.cursor - 1 < |s.stack|)
  {
    !(s.cursor <= 0)
  }

  /** The forward button is enabled (`disabled={currentPosition >= length - 1}`).
      In a well-formed state it is enabled exactly when there is a stacked
      entry after the cursor, so the handler's read is in bounds. */
  predicate ForwardEnabled(s: Session): (b: bool)
    ensures Wf(s) ==> (b <==> 0 <= s.cursor + 1 < |s.stack|)
  {
    !(s.cursor >= |s.stack| - 1)
  }

  /** The address bar's `onChange`: `setUrl(e.target.value)`. */
  function HandleInput(snap: Session, text: string): (r: Session)
    ensures r.url == text
    ensures r.(url := snap.url) == snap
  {
    snap.(url := text)
  }

  /** `handleSubmit`: loads the address-bar text unless it is empty. */
  function HandleSubmit(snap: Session, ops: UrlOps, clock: Clock): (r: Session)
    requires Wf(snap)
    ensures Wf(r) && HistoryExtends(snap.history, r.history)
    ensures snap.url == "" ==> r == snap
    ensures snap.url != "" && !ops.valid(Normalize(snap.url)) ==>
              r == snap.(error := Some(InvalidUrlMessage))
    ensures snap.url != "" && ops.valid(Normalize(snap.url)) ==>
              var p := Normalize(snap.url);
              && r.url == p && r.proxyUrl == RelayUrl(p) && r.cursor == snap.cursor + 1 && r.error == None
              && r.stack == PushStack(snap.cursor, |snap.stack|, snap.stack, p)
              && r.history == [NewItem(p, ops, clock)] + snap.history
              && |r.history| == |snap.history| + 1 && r.history[0].url == r.url
              && r.showHistory == snap.showHistory
  {
    if snap.url != "" then
      LoadKeepsWf(snap, snap, snap.url, ops, clock);
      LoadUrl(snap, snap, snap.url, ops, clock)
    else snap
  }

  /** `handleGoBack`: when enabled it queues `cursor - 1`, shows the address
      stacked just before the cursor and loads it; when disabled it does nothing. The stack
      read is in bounds in every well-formed state. The load reads the
      render-time cursor, so its `+ 1` cancels the handler's `- 1`: that
      address is appended after entry `min(cursor, |stack| - 1)` and the
      cursor stays where it was. After a forward step has left the cursor past
      the end, the entry just before it is the page being shown, which is
      then loaded again. If the address is rejected, only the handler's own
      cursor step and address-bar update and the error take effect. */
  function HandleGoBack(snap: Session, ops: UrlOps, clock: Clock): (r: Session)
    requires Wf(snap)
    ensures Wf(r) && HistoryExtends(snap.history, r.history)
    ensures !BackEnabled(snap) ==> r == snap
    ensures BackEnabled(snap) ==>
              var p := Normalize(snap.stack[snap.cursor - 1]);
              && (ops.valid(p) ==>
                    && r.cursor == snap.cursor
                    && r.stack == SliceTo(snap.stack, snap.cursor + 1) + [p]
                    && r.url == p && r.proxyUrl == RelayUrl(p) && r.error == None
                    && r.history == [NewItem(p, ops, clock)] + snap.history)
              && (!ops.valid(p) ==>
                    && r.cursor == snap.cursor - 1 && r.stack == snap.stack
                    && r.url == snap.stack[snap.cursor - 1] && r.proxyUrl == snap.proxyUrl
                    && r.error == Some(InvalidUrlMessage) && r.history == snap.history)
              && r.showHistory == snap.showHistory
  {
    if snap.cursor > 0 then
      var prevUrl := snap.stack[snap.cursor - 1];
      var pending := snap.(cursor := snap.cursor - 1, url := prevUrl);
      LoadKeepsWf(snap, pending, prevUrl, ops, clock);
      LoadUrl(snap, pending, prevUrl, ops, clock)
    else snap
  }

  /** `handleGoForward`: when enabled it queues `cursor + 1`, shows the next
      stacked address and loads it; when disabled it does nothing. The stack
      read is in bounds in every well-formed state. The load truncates after
      the render-time cursor and pushes the next address, and its `+ 1` adds
      to the handler's, so the cursor advances by two and lands one past the
      last entry of the new stack. If the address is rejected, only the
      handler's own cursor step and address-bar update and the error take
      effect. */
  function HandleGoForward(snap: Session, ops: UrlOps, clock: Clock): (r: Session)
    requires Wf(snap)
    ensures Wf(r) && HistoryExtends(snap.history, r.history)
    ensures !ForwardEnabled(snap) ==> r == snap
    ensures ForwardEnabled(snap) ==>
              var p := Normalize(snap.stack[snap.cursor + 1]);
              && (ops.valid(p) ==>
                    && r.cursor == snap.cursor + 2 == |r.stack|
                    && r.stack == snap.stack[..snap.cursor + 1] + [p]
                    && r.url == p && r.proxyUrl == RelayUrl(p) && r.error == None
                    && r.history == [NewItem(p, ops, clock)] + snap.history)
              && (!ops.valid(p) ==>
                    && r.cursor == snap.cursor + 1 && r.stack == snap.stack
                    && r.url == snap.stack[snap.cursor + 1] && r.proxyUrl == snap.proxyUrl
                    && r.error == Some(InvalidUrlMessage) && r.history == snap.history)
              && r.showHistory == snap.showHistory
  {
    if snap.cursor < |snap.stack| - 1 then
      var nextUrl := snap.stack[snap.cursor + 1];
      var pending := snap.(cursor := snap.cursor + 1, url := nextUrl);
      LoadKeepsWf(snap, pending, nextUrl, ops, clock);
      LoadUrl(snap, pending, nextUrl, ops, clock)
    else snap
  }

  /** `handleClearUrl`: empties the address bar and the frame and drops the
      error; the stack, cursor and history are kept. */
  function HandleClearUrl(snap: Session): (r: Session)
    requires Wf(snap)
    ensures Wf(r)
    ensures r.url == "" && r.proxyUrl == "" && r.error == None
    ensures r.stack == snap.stack && r.cursor == snap.cursor && r.history == snap.history
    ensures r.showHistory == snap.showHistory && r.isLoading == snap.isLoading
  {
    snap.(url := "", proxyUrl := "", error := None)
  }

  /** `handleHistoryItemClick(u)`: shows `u`, loads it and closes the drawer. */
  function HandleHistoryItemClick(snap: Session, u: string, ops: UrlOps, clock: Clock): (r: Session)
    requires Wf(snap)
    ensures Wf(r) && HistoryExtends(snap.history, r.history)
    ensures !r.showHistory
    ensures ops.valid(Normalize(u)) ==>
              var p := Normalize(u);
              && r.url == p && r.proxyUrl == RelayUrl(p) && r.cursor == snap.cursor + 1 && r.error == None
              && r.stack == PushStack(snap.cursor, |snap.stack|, snap.stack, p)
              && r.history == [NewItem(p, ops, clock)] + snap.history
              && |r.history| > 0 && r.history[0].url == r.url
    ensures !ops.valid(Normalize(u)) ==>
              r.url == u && r.proxyUrl == snap.proxyUrl && r.error == Some(InvalidUrlMessage)
              && r.stack == snap.stack && r.cursor == snap.cursor && r.history == snap.history
  {
    LoadKeepsWf(snap, snap.(url := u), u, ops, clock);
    LoadUrl(snap, snap.(url := u), u, ops, clock).(showHistory := false)
  }

  /** The query-string effect: when the `url` parameter of the page address
      is non-empty it is put in the address bar and loaded. React runs it on
      mount and again whenever the query string changes, which every
      successful load of a new address causes through its `navigate`; the
      parameter then holds that address. */
  function HandleQueryParam(snap: Session, param: Option<string>, ops: UrlOps, clock: Clock): (r: Session)
    requires Wf(snap)
    ensures Wf(r) && HistoryExtends(snap.history, r.history)
    ensures !IsTruthy(param) ==> r == snap
    ensures IsTruthy(param) && ops.valid(Normalize(param.value)) ==>
              var p := Normalize(param.value);
              && r.url == p && r.proxyUrl == RelayUrl(p) && r.cursor == snap.cursor + 1 && r.error == None
              && r.stack == PushStack(snap.cursor, |snap.stack|, snap.stack, p)
              && r.history == [NewItem(p, ops, clock)] + snap.history
              && |r.history| == |snap.history| + 1 && r.history[0].url == r.url
              && r.showHistory == snap.showHistory
    ensures IsTruthy(param) && !ops.valid(Normalize(param.value)) ==>
              r == snap.(url := param.value, error := Some(InvalidUrlMessage))
  {
    if IsTruthy(param) then
      LoadKeepsWf(snap, snap.(url := param.value), param.value, ops, clock);
      LoadUrl(snap, snap.(url := param.value), param.value, ops, clock)
    else snap
  }

  /** The history button toggles the drawer. */
  function ToggleHistory(snap: Session): (r: Session)
    ensures r.showHistory != snap.showHistory
    ensures r.(showHistory := snap.showHistory) == snap
  {
    snap.(showHistory := !snap.showHistory)
  }

  /** The drawer's close button shuts it. */
  function CloseHistory(snap: Session): (r: Session)
    ensures !r.showHistory
    ensures r.(showHistory := snap.showHistory) == snap
  {
    snap.(showHistory := false)
  }

  // ----- event sequences ---------------------------------------------------------

  /** The user actions of the page, each handled from the current render.
      The clear button is only rendered while the address bar is non-empty. */
  datatype Event =
    | Input(text: string)
    | Submit(clock: Clock)
    | Back(clock: Clock)
    | Forward(clock: Clock)
    | Clear
    | HistoryClick(u: string, clock: Clock)
    | Toggle
    | Close
    | QueryParam(param: Option<string>, clock: Clock)

  function Step(s: Session, e: Event, ops: UrlOps): (r: Session)
    requires Wf(s)
    ensures Wf(r) && HistoryExtends(s.history, r.history)
  {
    match e
    case Input(text) => HandleInput(s, text)
    case Submit(clock) => HandleSubmit(s, ops, clock)
    case Back(clock) => HandleGoBack(s, ops, clock)
    case Forward(clock) => HandleGoForward(s, ops, clock)
    case Clear => if s.url != "" then HandleClearUrl(s) else s
    case HistoryClick(u, clock) => HandleHistoryItemClick(s, u, ops, clock)
    case Toggle => ToggleHistory(s)
    case Close => CloseHistory(s)
    case QueryParam(param, clock) => HandleQueryParam(s, param, ops, clock)
  }

  /** The state after handling `events` in order, each from the render the
      previous one produced. The history is never shortened. */
  function Run(s: Session, events: seq<Event>, ops: UrlOps): (r: Session)
    requires Wf(s)
    ensures Wf(r) && HistoryExtends(s.history, r.history)
    decreases |events|
  {
    if events == [] then s
    else
      var t := Step(s, events[0], ops);
      var r := Run(t, events[1..], ops);
      assert r.history[|r.history| - |s.history|..]
          == r.history[|r.history| - |t.history|..][|t.history| - |s.history|..];
      r
  }

  /** Typing an address and submitting it. */
  function Visit(s: Session, text: string, ops: UrlOps, clock: Clock): (r: Session)
    requires Wf(s)
    ensures Wf(r)
  {
    HandleSubmit(HandleInput(s, text), ops, clock)
  }

  /** Visiting an address already in normal form that passes the check
      appends it after entry `min(cursor, |stack| - 1)`, dropping what came
      later, advances the cursor by one and logs it once. The cursor then sits
      on the new entry, unless a forward step had left it past the end, in
      which case it stays one past the new entry. */
  lemma VisitPushes(s: Session, a: string, ops: UrlOps, clock: Clock)
    requires Wf(s) && IsNormal(a) && ops.valid(a)
    ensures var r := Visit(s, a, ops, clock);
            && r.stack == PushStack(s.cursor, |s.stack|, s.stack, a)
            && r.cursor == s.cursor + 1 && r.url == a
            && |r.history| == |s.history| + 1
  {
    NormalizeOfNormal(a);
    var t := HandleInput(s, a);
    assert Visit(s, a, ops, clock) == LoadUrl(t, t, a, ops, clock);
  }

  /** Two visits from the initial state stack both addresses in order. */
  lemma VisitTwice(a: string, b: string, ops: UrlOps, k1: Clock, k2: Clock)
    requires IsNormal(a) && IsNormal(b) && ops.valid(a) && ops.valid(b)
    ensures var s := Visit(Visit(Initial(), a, ops, k1), b, ops, k2);
            s.stack == [a, b] && s.cursor == 1 && |s.history| == 2
  {
    var s1 := Visit(Initial(), a, ops, k1);
    VisitPushes(Initial(), a, ops, k1);
    assert s1.stack == [a] && s1.cursor == 0 && |s1.history| == 1;
    VisitPushes(s1, b, ops, k2);
  }

  /** From the stack [A, B] with the cursor on B, back pushes A again
      without moving the cursor, and a visit to C then truncates after B. */
  lemma BackThenVisit(s: Session, a: string, b: string, c: string, ops: UrlOps, k3: Clock, k4: Clock)
    requires Wf(s) && s.stack == [a, b] && s.cursor == 1
    requires IsNormal(a) && IsNormal(c) && ops.valid(a) && ops.valid(c)
    ensures var r := Visit(HandleGoBack(s, ops, k3), c, ops, k4);
            r.stack == [a, b, c] && r.cursor == 2 && r.url == c && |r.history| == |s.history| + 2
  {
    var s3 := HandleGoBack(s, ops, k3);
    NormalizeOfNormal(a);
    assert SliceTo([a, b], 2) == [a, b];
    assert s3.stack == [a, b, a] && s3.cursor == 1 && |s3.history| == |s.history| + 1;
    VisitPushes(s3, c, ops, k4);
    assert SliceTo(s3.stack, 2) == [a, b];
  }

  /** Visit A, visit B, back, visit C: the back step pushes A again, and C
      then replaces it, so the stack is [A, B, C] with the cursor on C. */
  lemma VisitBackVisit(a: string, b: string, c: string, ops: UrlOps, k1: Clock, k2: Clock, k3: Clock, k4: Clock)
    requires IsNormal(a) && IsNormal(b) && IsNormal(c)
    requires ops.valid(a) && ops.valid(b) && ops.valid(c)
    ensures var s := Visit(HandleGoBack(Visit(Visit(Initial(), a, ops, k1), b, ops, k2), ops, k3), c, ops, k4);
            s.stack == [a, b, c] && s.cursor == 2 && s.url == c && |s.history| == 4
  {
    VisitTwice(a, b, ops, k1, k2);
    BackThenVisit(Visit(Visit(Initial(), a, ops, k1), b, ops, k2), a, b, c, ops, k3, k4);
  }

  /** From the stack [A, B] with the cursor on B, back then forward shows A
      again, not B: back pushes A a second time, and forward reads that copy. */
  lemma BackForwardStaysOnA(s: Session, a: string, b: string, ops: UrlOps, k3: Clock, k4: Clock)
    requires Wf(s) && s.stack == [a, b] && s.cursor == 1
    requires IsNormal(a) && ops.valid(a)
    ensures var r := HandleGoForward(HandleGoBack(s, ops, k3), ops, k4);
            r.stack == [a, b, a] && r.cursor == 3 && r.url == a && |r.history| == |s.history| + 2
  {
    var s3 := HandleGoBack(s, ops, k3);
    NormalizeOfNormal(a);
    assert SliceTo([a, b], 2) == [a, b];
    assert s3.stack == [a, b, a] && s3.cursor == 1;
    assert s3.stack[..2] + [a] == [a, b, a];
  }

  /** Once a forward step has left the cursor one past the end, a visit to C
      appends C and leaves the cursor past the end again, and back then reads
      C itself: it reloads the page being shown and stacks C twice. */
  lemma VisitPastEndThenBack(s: Session, c: string, ops: UrlOps, k1: Clock, k2: Clock)
    requires Wf(s) && |s.stack| > 0 && s.cursor == |s.stack|
    requires IsNormal(c) && ops.valid(c)
    ensures var v := Visit(s, c, ops, k1);
            && v.stack == s.stack + [c] && v.cursor == |v.stack| && v.url == c
            && var r := HandleGoBack(v, ops, k2);
               r.stack == s.stack + [c, c] && r.cursor == v.cursor && r.url == c
  {
    var v := Visit(s, c, ops, k1);
    VisitPushes(s, c, ops, k1);
    NormalizeOfNormal(c);
    assert v.stack[v.cursor - 1] == c;
    assert SliceTo(v.stack, v.cursor + 1) == v.stack;
    assert v.stack + [c] == s.stack + [c, c];
  }

  /** Visit A, visit B, back, forward: the stack is [A, B, A], the cursor
      sits past its end at 3 and A, not B, is in the bar. */
  lemma VisitVisitBackForward(a: string, b: string, ops: UrlOps, k1: Clock, k2: Clock, k3: Clock, k4: Clock)
    requires IsNormal(a) && IsNormal(b) && ops.valid(a) && ops.valid(b)
    ensures var s := HandleGoForward(HandleGoBack(Visit(Visit(Initial(), a, ops, k1), b, ops, k2), ops, k3), ops, k4);
            s.stack == [a, b, a] && s.cursor == 3 == |s.stack| && s.url == a && |s.history| == 4
  {
    VisitTwice(a, b, ops, k1, k2);
    BackForwardStaysOnA(Visit(Visit(Initial(), a, ops, k1), b, ops, k2), a, b, ops, k3, k4);
  }

  /** The query-string effect that follows a first visit loads the same
      address again: the stack holds it twice, the cursor is on the second
      copy and the log has two entries. */
  lemma VisitThenQueryParam(a: string, ops: UrlOps, k1: Clock, k2: Clock)
    requires IsNormal(a) && ops.valid(a)
    ensures var s := HandleQueryParam(Visit(Initial(), a, ops, k1), Some(a), ops, k2);
            s.stack == [a, a] && s.cursor == 1 && s.url == a && |s.history| == 2
  {
    var s1 := Visit(Initial(), a, ops, k1);
    VisitPushes(Initial(), a, ops, k1);
    assert s1.stack == [a] && s1.cursor == 0 && |s1.history| == 1;
    NormalizeOfNormal(a);
    assert HandleQueryParam(s1, Some(a), ops, k2) == LoadUrl(s1, s1.(url := a), a, ops, k2);
  }

  // ----- entries of reachable states ---------------------------------------------

  /** Every element satisfies `P`. Unlike the `forall` of
      `JsString.AllWhiteSpace`, it is recursive, so that it unfolds one
      element at a time and needs no trigger for an arbitrary `P`. */
  predicate All<T>(s: seq<T>, P: T -> bool)
    decreases |s|
  {
    s == [] || (P(s[0]) && All(s[1..], P))
  }

  lemma {:induction false} AllAt<T>(s: seq<T>, P: T -> bool, i: nat)
    requires All(s, P) && i < |s|
    ensures P(s[i])
    decreases i
  {
    if i > 0 {
      AllAt(s[1..], P, i - 1);
    }
  }

  lemma {:induction false} AllConcat<T>(a: seq<T>, b: seq<T>, P: T -> bool)
    requires All(a, P) && All(b, P)
    ensures All(a + b, P)
    decreases |a|
  {
    if a == [] {
      assert a + b == b;
    } else {
      assert (a + b)[1..] == a[1..] + b;
      AllConcat(a[1..], b, P);
    }
  }

  lemma {:induction false} AllPrefix<T>(s: seq<T>, P: T -> bool, k: nat)
    requires All(s, P) && k <= |s|
    ensures All(s[..k], P)
    decreases k
  {
    if k > 0 {
      assert s[..k][1..] == s[1..][..k - 1];
      AllPrefix(s[1..], P, k - 1);
    }
  }

  function Urls(h: seq<HistoryItem>): (us: seq<string>)
    ensures |us| == |h| && forall i :: 0 <= i < |h| ==> us[i] == h[i].url
  {
    if h == [] then [] else [h[0].url] + Urls(h[1..])
  }

  /** What every state reachable from `Initial` satisfies: well-formed, and
      every stacked or logged address is in normal form and passed the
      validity check. */
  predicate Reachable(s: Session, ops: UrlOps) {
    && Wf(s)
    && All(s.stack, IsNormal) && All(s.stack, ops.valid)
    && All(Urls(s.history), IsNormal) && All(Urls(s.history), ops.valid)
  }

  /** Replacing the tail of a stack by one address keeps a property every
      entry had, if the new address has it too. */
  lemma PushKeepsAll(prev: seq<string>, r: seq<string>, p: string, P: string -> bool)
    requires All(prev, P) && P(p)
    requires |r| > 0 && r[|r| - 1] == p && |r| <= |prev| + 1 && r[..|r| - 1] == prev[..|r| - 1]
    ensures All(r, P)
  {
    var kept := r[..|r| - 1];
    assert r == kept + [p];
    AllPrefix(prev, P, |kept|);
    AllConcat(kept, [p], P);
  }

  /** Logging an entry keeps a property every logged address had, if the
      new entry's address has it too. */
  lemma LogKeepsAll(item: HistoryItem, h: seq<HistoryItem>, P: string -> bool)
    requires All(Urls(h), P) && P(item.url)
    ensures All(Urls([item] + h), P)
  {
    assert Urls([item] + h) == [item.url] + Urls(h);
    AllConcat([item.url], Urls(h), P);
  }

  /** A load keeps a property of every stacked address if the address it
      would push has it too. */
  lemma LoadKeepsStacked(snap: Session, pending: Session, input: string, ops: UrlOps, clock: Clock, P: string -> bool)
    requires LoadStart(snap, pending) && Wf(snap) && All(snap.stack, P)
    requires ops.valid(Normalize(input)) ==> P(Normalize(input))
    ensures All(LoadUrl(snap, pending, input, ops, clock).stack, P)
  {
    if ops.valid(Normalize(input)) {
      PushKeepsAll(snap.stack, LoadUrl(snap, pending, input, ops, clock).stack, Normalize(input), P);
    }
  }

  /** A load keeps a property of every logged address if the address it
      would log has it too. */
  lemma LoadKeepsLogged(snap: Session, pending: Session, input: string, ops: UrlOps, clock: Clock, P: string -> bool)
    requires LoadStart(snap, pending) && All(Urls(snap.history), P)
    requires ops.valid(Normalize(input)) ==> P(Normalize(input))
    ensures All(Urls(LoadUrl(snap, pending, input, ops, clock).history), P)
  {
    if ops.valid(Normalize(input)) {
      LogKeepsAll(NewItem(Normalize(input), ops, clock), snap.history, P);
    }
  }

  lemma LoadKeepsReachable(snap: Session, pending: Session, input: string, ops: UrlOps, clock: Clock)
    requires Reachable(snap, ops) && LoadStart(snap, pending)
    ensures Reachable(LoadUrl(snap, pending, input, ops, clock), ops)
  {
    LoadKeepsWf(snap, pending, input, ops, clock);
    LoadKeepsStacked(snap, pending, input, ops, clock, IsNormal);
    LoadKeepsStacked(snap, pending, input, ops, clock, ops.valid);
    LoadKeepsLogged(snap, pending, input, ops, clock, IsNormal);
    LoadKeepsLogged(snap, pending, input, ops, clock, ops.valid);
  }

  lemma SubmitKeepsReachable(s: Session, ops: UrlOps, clock: Clock)
    requires Reachable(s, ops)
    ensures Reachable(HandleSubmit(s, ops, clock), ops)
  {
    if s.url != "" {
      LoadKeepsReachable(s, s, s.url, ops, clock);
    }
  }

  lemma BackKeepsReachable(s: Session, ops: UrlOps, clock: Clock)
    requires Reachable(s, ops)
    ensures Reachable(HandleGoBack(s, ops, clock), ops)
  {
    if s.cursor > 0 {
      var prevUrl := s.stack[s.cursor - 1];
      LoadKeepsReachable(s, s.(cursor := s.cursor - 1, url := prevUrl), prevUrl, ops, clock);
    }
  }

  lemma ForwardKeepsReachable(s: Session, ops: UrlOps, clock: Clock)
    requires Reachable(s, ops)
    ensures Reachable(HandleGoForward(s, ops, clock), ops)
  {
    if s.cursor < |s.stack| - 1 {
      var nextUrl := s.stack[s.cursor + 1];
      LoadKeepsReachable(s, s.(cursor := s.cursor + 1, url := nextUrl), nextUrl, ops, clock);
    }
  }

  lemma HistoryClickKeepsReachable(s: Session, u: string, ops: UrlOps, clock: Clock)
    requires Reachable(s, ops)
    ensures Reachable(HandleHistoryItemClick(s, u, ops, clock), ops)
  {
    LoadKeepsReachable(s, s.(url := u), u, ops, clock);
  }

  lemma QueryParamKeepsReachable(s: Session, param: Option<string>, ops: UrlOps, clock: Clock)
    requires Reachable(s, ops)
    ensures Reachable(HandleQueryParam(s, param, ops, clock), ops)
  {
    if IsTruthy(param) {
      LoadKeepsReachable(s, s.(url := param.value), param.value, ops, clock);
    }
  }

  /** Every handler keeps a reachable state reachable. */
  lemma StepKeepsReachable(s: Session, e: Event, ops: UrlOps)
    requires Reachable(s, ops)
    ensures Reachable(Step(s, e, ops), ops)
  {
    match e
    case Submit(clock) => SubmitKeepsReachable(s, ops, clock);
    case Back(clock) => BackKeepsReachable(s, ops, clock);
    case Forward(clock) => ForwardKeepsReachable(s, ops, clock);
    case HistoryClick(u, clock) => HistoryClickKeepsReachable(s, u, ops, clock);
    case QueryParam(param, clock) => QueryParamKeepsReachable(s, param, ops, clock);
    case Input(text) =>
      assert Step(s, e, ops) == s.(url := text);
    case Clear =>
      assert Step(s, e, ops) == s || Step(s, e, ops) == s.(url := "", proxyUrl := "", error := None);
    case Toggle =>
      assert Step(s, e, ops) == s.(showHistory := !s.showHistory);
    case Close =>
      assert Step(s, e, ops) == s.(showHistory := false);
  }

  lemma {:induction false} RunKeepsReachable(s: Session, events: seq<Event>, ops: UrlOps)
    requires Reachable(s, ops)
    ensures Reachable(Run(s, events, ops), ops)
    decreases |events|
  {
    if events != [] {
      StepKeepsReachable(s, events[0], ops);
      RunKeepsReachable(Step(s, events[0], ops), events[1..], ops);
    }
  }

  /** In a reachable state a back or forward step always reloads the stacked
      address unchanged: it is already normal and already passed the check. */
  lemma StackedAddressesReload(s: Session, ops: UrlOps)
    requires Reachable(s, ops)
    ensures BackEnabled(s) ==>
              var u := s.stack[s.cursor - 1]; Normalize(u) == u && ops.valid(u)
    ensures ForwardEnabled(s) ==>
              var u := s.stack[s.cursor + 1]; Normalize(u) == u && ops.valid(u)
  {
    if BackEnabled(s) {
      AllAt(s.stack, IsNormal, s.cursor - 1);
      AllAt(s.stack, ops.valid, s.cursor - 1);
      NormalizeOfNormal(s.stack[s.cursor - 1]);
    }
    if ForwardEnabled(s) {
      AllAt(s.stack, IsNormal, s.cursor + 1);
      AllAt(s.stack, ops.valid, s.cursor + 1);
      NormalizeOfNormal(s.stack[s.cursor + 1]);
    }
  }

  /** Every state the page can reach from its initial state is reachable in
      the sense above; in particular the cursor never leaves -1..|stack|. */
  lemma EveryRunReachable(events: seq<Event>, ops: UrlOps)
    ensures Reachable(Run(Initial(), events, ops), ops)
    ensures var s := Run(Initial(), events, ops);
            -1 <= s.cursor <= |s.stack| && (s.cursor == -1 <==> s.stack == [])
  {
    RunKeepsReachable(Initial(), events, ops);
  }

  // ----- what the page shows ---------------------------------------------------

  /** The main area's four conditional blocks; more than one can be on. */
  datatype Panels = Panels(errorBox: bool, spinner: bool, frame: bool, welcome: bool)

  /** Which blocks render: the error box whenever there is an error, the
      spinner whenever loading, and, when neither, exactly one of the frame
      (a relay URL is set) and the welcome screen (none is). */
  function SelectPanels(s: Session): (p: Panels)
    ensures p.errorBox <==> IsTruthy(s.error)
    ensures p.spinner <==> s.isLoading
    ensures p.frame ==> s.proxyUrl != "" && !p.errorBox && !p.spinner
    ensures p.welcome ==> s.proxyUrl == "" && !p.errorBox && !p.spinner
    ensures !s.isLoading && !IsTruthy(s.error) ==> (p.frame != p.welcome)
  {
    var quiet := !s.isLoading && !IsTruthy(s.error);
    Panels(IsTruthy(s.error), s.isLoading, quiet && s.proxyUrl != "", quiet && s.proxyUrl == "")
  }

  /** After a successful load the frame shows, and nothing else; after a
      rejected one only the error box shows. The spinner never shows. */
  lemma LoadOutcomeShown(snap: Session, pending: Session, input: string, ops: UrlOps, clock: Clock)
    ensures var p := SelectPanels(LoadUrl(snap, pending, input, ops, clock));
            && !p.spinner
            && (ops.valid(Normalize(input)) ==> p.frame && !p.errorBox && !p.welcome)
            && (!ops.valid(Normalize(input)) ==> p.errorBox && !p.frame && !p.welcome)
  {
    var r := LoadUrl(snap, pending, input, ops, clock);
    if ops.valid(Normalize(input)) {
      RelayUrlSpec(Normalize(input));
      assert r.proxyUrl[..|RelayPrefix|] == RelayPrefix;
    }
  }
}

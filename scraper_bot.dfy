/** bot.py: for each index page in the URL table, in order, scrape the decimal tail of
    the first price on the page and post "NAME : dd" with the IST time, pinning the
    message when enabled. Pages, the clock and the chat API are inputs. */
module ScraperBot {
  import opened Wrappers
  import opened Numerals
  import opened Calendar
  import opened TailScan
  import opened Chat

  /** The URL table: each index name with the environment variable that holds its page URL. */
  const UrlVariables: seq<(string, string)> := [
    ("TAIWAN", "URL_TAIWAN"),
    ("KOSPI", "URL_KOSPI"),
    ("HANG SENG", "URL_HANGSENG"),
    ("SENSEX", "URL_SENSEX"),
    ("DAX", "URL_DAX"),
    ("DOW JONES", "URL_DOWJONES")
  ]

  /** One row of URLS: the index name and `os.getenv` of its variable (None when unset). */
  datatype Entry = Entry(name: string, url: Option<string>)

  function GetEnv(env: map<string, string>, key: string): Option<string> {
    if key in env then Some(env[key]) else None
  }

  /** URLS, built from the environment. */
  function UrlTable(env: map<string, string>): (table: seq<Entry>)
    ensures |table| == |UrlVariables|
    ensures forall k :: 0 <= k < |table| ==>
              table[k].name == UrlVariables[k].0 &&
              (table[k].url.Some? <==> UrlVariables[k].1 in env) &&
              (table[k].url.Some? ==> table[k].url.value == env[UrlVariables[k].1])
  {
    seq(|UrlVariables|, k requires 0 <= k < |UrlVariables| =>
      Entry(UrlVariables[k].0, GetEnv(env, UrlVariables[k].1)))
  }

  /** PIN_AFTER_SEND: on when the variable is unset or exactly "1". */
  function PinAfterSend(env: map<string, string>): (on: bool)
    ensures on <==> "PIN_AFTER_SEND" !in env || env["PIN_AFTER_SEND"] == "1"
  {
    (if "PIN_AFTER_SEND" in env then env["PIN_AFTER_SEND"] else "1") == "1"
  }

  /** `strftime("%d-%m-%Y %H:%M IST")` of an IST wall-clock time. */
  function FormatStamp(t: DateTime): string
    requires ValidDateTime(t)
  {
    Pad2(t.date.day) + "-" + Pad2(t.date.month) + "-" + YearText(t.date.year) + " " +
    Pad2(t.hour) + ":" + Pad2(t.minute) + " IST"
  }

  /** Reads a "DD-MM-YYYY HH:MM IST" stamp back; None for any other text. */
  function ParseStamp(s: string): Option<DateTime> {
    if |s| == 20 && s[2] == '-' && s[5] == '-' && s[10] == ' ' && s[13] == ':' && s[16..] == " IST" &&
       AllDigits(s[..2]) && AllDigits(s[3..5]) && AllDigits(s[6..10]) &&
       AllDigits(s[11..13]) && AllDigits(s[14..16])
    then
      Some(DateTime(Date(DigitsValue(s[6..10]), DigitsValue(s[3..5]), DigitsValue(s[..2])),
                    DigitsValue(s[11..13]), DigitsValue(s[14..16])))
    else None
  }

  /** The stamp has the fixed shape "DD-MM-YYYY HH:MM IST" and reads back as the time it
      was made from (for four-digit years). */
  lemma StampRoundTrip(t: DateTime)
    requires ValidDateTime(t) && 0 <= t.date.year < 10000
    ensures |FormatStamp(t)| == 20
    ensures ParseStamp(FormatStamp(t)) == Some(t)
  {
    var d, m, y := Pad2(t.date.day), Pad2(t.date.month), YearText(t.date.year);
    var hh, mm := Pad2(t.hour), Pad2(t.minute);
    Pad2Value(t.date.day);
    Pad2Value(t.date.month);
    YearTextValue(t.date.year);
    Pad2Value(t.hour);
    Pad2Value(t.minute);
    assert FormatStamp(t) == d + "-" + m + "-" + y + " " + hh + ":" + mm + " IST";
    StampPieces(d, m, y, hh, mm);
  }

  /** Where each field sits in a stamp. */
  lemma StampPieces(d: string, m: string, y: string, hh: string, mm: string)
    requires |d| == 2 && |m| == 2 && |y| == 4 && |hh| == 2 && |mm| == 2
    ensures var s := d + "-" + m + "-" + y + " " + hh + ":" + mm + " IST";
      |s| == 20 && s[..2] == d && s[2] == '-' && s[3..5] == m && s[5] == '-' && s[6..10] == y &&
      s[10] == ' ' && s[11..13] == hh && s[13] == ':' && s[14..16] == mm && s[16..] == " IST"
  {
    var s := d + "-" + m + "-" + y + " " + hh + ":" + mm + " IST";
    assert s[..2] == d && s[3..5] == m && s[6..10] == y;
    assert s[11..13] == hh && s[14..16] == mm && s[16..] == " IST";
  }

  /** `ist_now_str()`: the clock reading in Asia/Kolkata, formatted as a stamp. */
  function IstNowStr(now: DateTime): string
    requires ValidDateTime(now)
  {
    FormatStamp(now)
  }

  /** The text posted for an index: its two decimals, or "??" when the page had no price. */
  function MessageText(name: string, tail: Option<string>, now: DateTime): string
    requires ValidDateTime(now)
  {
    name + " : " + (if tail.Some? then tail.value else "??") + "\n" + IstNowStr(now)
  }

  /** The text posted when handling an index raised an exception. */
  function ErrorText(name: string, now: DateTime): string
    requires ValidDateTime(now)
  {
    name + " : ??\n" + IstNowStr(now) + "\n(error)"
  }

  /** A price message reads "NAME : dd" (or "NAME : ??" without a price), a line break, and
      the stamp, which gives back the clock reading. */
  lemma MessageTextShape(name: string, tail: Option<string>, now: DateTime)
    requires ValidDateTime(now) && 0 <= now.date.year < 10000
    requires tail.Some? ==> |tail.value| == 2
    ensures var t, n := MessageText(name, tail, now), |name|;
      |t| == n + 26 && t[..n + 3] == name + " : " &&
      t[n + 3..n + 5] == (if tail.Some? then tail.value else "??") && t[n + 5] == '\n' &&
      ParseStamp(t[n + 6..]) == Some(now)
  {
    var st := IstNowStr(now);
    StampRoundTrip(now);
    var shown := if tail.Some? then tail.value else "??";
    var t := MessageText(name, tail, now);
    assert t == (name + " : ") + shown + "\n" + st;
    var n := |name|;
    assert t[..n + 3] == name + " : ";
    assert t[n + 3..n + 5] == shown;
    assert t[n + 6..] == st;
  }

  /** An error report reads "NAME : ??", a line break, the stamp (which gives back the clock
      reading), a line break and "(error)". */
  lemma ErrorTextShape(name: string, now: DateTime)
    requires ValidDateTime(now) && 0 <= now.date.year < 10000
    ensures var t, n := ErrorText(name, now), |name|;
      |t| == n + 34 && t[..n + 5] == name + " : ??" && t[n + 5] == '\n' &&
      ParseStamp(t[n + 6..n + 26]) == Some(now) && t[n + 26..] == "\n(error)"
  {
    var st := IstNowStr(now);
    StampRoundTrip(now);
    var t := ErrorText(name, now);
    assert t == (name + " : ??") + "\n" + st + "\n(error)";
    var n := |name|;
    assert t[..n + 5] == name + " : ??";
    assert t[n + 6..n + 26] == st;
    assert t[n + 26..] == "\n(error)";
  }

  /** `fetch_decimal_tail`'s request: it raises (network error, HTTP error status) or yields the page text. */
  datatype Fetch = FetchRaised | Page(text: string)

  /** `send_message`: it raises, or returns the message id (None when the reply was not ok
      or carried no id). */
  datatype SendResult = SendRaised | Sent(messageId: Option<int>)

  /** What the outside world does while one entry is handled: the page request, the clock
      reading (IST wall-clock time), the message request, and whether the error report's
      request raises. */
  datatype EntryWorld = EntryWorld(fetch: Fetch, clock: DateTime, send: SendResult, errorSendRaises: bool)

  predicate ValidWorlds(worlds: seq<EntryWorld>) {
    forall k :: 0 <= k < |worlds| ==> ValidDateTime(worlds[k].clock)
  }

  predicate HasUrl(e: Entry) {
    e.url.Some? && e.url.value != ""
  }

  /** `if PIN_AFTER_SEND and mid`: pinning is on and the message id is usable. */
  predicate PinWanted(pinAfterSend: bool, mid: Option<int>) {
    pinAfterSend && UsableId(mid)
  }

  /** One iteration of the loop in main: skip, or fetch-post-pin with the except branch. */
  function EntryOutcome(e: Entry, w: EntryWorld, pinAfterSend: bool): Outcome
    requires ValidDateTime(w.clock)
  {
    if !HasUrl(e) then Outcome([], false)
    else
      var errorReport := [SendMessage(ErrorText(e.name, w.clock))];
      match w.fetch
      case FetchRaised => Outcome(errorReport, w.errorSendRaises)
      case Page(html) =>
        var msg := SendMessage(MessageText(e.name, PickTwoDecimals(html), w.clock));
        match w.send
        case SendRaised => Outcome([msg] + errorReport, w.errorSendRaises)
        case Sent(mid) =>
          Outcome([msg] + (if PinWanted(pinAfterSend, mid) then [PinMessage(mid.value)] else []), false)
  }

  /** The entries' outcomes one after another: the traces are joined in order, and the
      first outcome that raised ends the sequence. */
  function Chain(outcomes: seq<Outcome>): Outcome {
    if outcomes == [] then Outcome([], false)
    else if outcomes[0].raised then outcomes[0]
    else
      var rest := Chain(outcomes[1..]);
      Outcome(outcomes[0].trace + rest.trace, rest.raised)
  }

  /** What each entry of the table would do on its own. */
  function EntryOutcomes(table: seq<Entry>, worlds: seq<EntryWorld>, pinAfterSend: bool): (outcomes: seq<Outcome>)
    requires |worlds| == |table| && ValidWorlds(worlds)
    ensures |outcomes| == |table|
    ensures forall k :: 0 <= k < |table| ==> outcomes[k] == EntryOutcome(table[k], worlds[k], pinAfterSend)
  {
    if table == [] then []
    else [EntryOutcome(table[0], worlds[0], pinAfterSend)] + EntryOutcomes(table[1..], worlds[1..], pinAfterSend)
  }

  /** The loop of main over the table: entries in order, stopping only when an exception
      escapes an iteration. */
  function RunSpec(table: seq<Entry>, worlds: seq<EntryWorld>, pinAfterSend: bool): Outcome
    requires |worlds| == |table| && ValidWorlds(worlds)
  {
    Chain(EntryOutcomes(table, worlds, pinAfterSend))
  }

  /** Joining two sequences of outcomes: the second only counts when the first did not raise. */
  lemma {:induction false} ChainAppend(a: seq<Outcome>, b: seq<Outcome>)
    ensures Chain(a + b) ==
      if Chain(a).raised then Chain(a) else Outcome(Chain(a).trace + Chain(b).trace, Chain(b).raised)
  {
    if a == [] {
      assert a + b == b;
    } else {
      assert (a + b)[0] == a[0] && (a + b)[1..] == a[1..] + b;
      ChainAppend(a[1..], b);
      if !a[0].raised {
        var rest, second := Chain(a[1..]), Chain(b);
        assert a[0].trace + (rest.trace + second.trace) == (a[0].trace + rest.trace) + second.trace;
      }
    }
  }

  /** The first entry runs first: if it raised the run stops there, otherwise the rest of
      the table follows. */
  lemma RunSpecCons(e: Entry, w: EntryWorld, table: seq<Entry>, worlds: seq<EntryWorld>, pin: bool)
    requires ValidDateTime(w.clock) && |worlds| == |table| && ValidWorlds(worlds)
    ensures ValidWorlds([w] + worlds)
    ensures var first, rest := EntryOutcome(e, w, pin), RunSpec(table, worlds, pin);
      RunSpec([e] + table, [w] + worlds, pin) ==
        if first.raised then first else Outcome(first.trace + rest.trace, rest.raised)
  {
    assert forall k :: 0 <= k < |[w] + worlds| ==> ([w] + worlds)[k] == if k == 0 then w else worlds[k - 1];
    assert ([e] + table)[1..] == table && ([w] + worlds)[1..] == worlds;
    ChainCons(EntryOutcome(e, w, pin), EntryOutcomes(table, worlds, pin));
  }

  lemma ChainCons(first: Outcome, rest: seq<Outcome>)
    ensures Chain([first] + rest) ==
      if first.raised then first else Outcome(first.trace + Chain(rest).trace, Chain(rest).raised)
  {
    assert ([first] + rest)[0] == first && ([first] + rest)[1..] == rest;
  }

  /** What a run that has produced `trace` so far ends with, when the outcomes from i on
      are still to come (unless an exception already escaped). */
  function Resume(trace: seq<Action>, raised: bool, outcomes: seq<Outcome>, i: nat): Outcome
    requires i <= |outcomes|
  {
    if raised then Outcome(trace, true)
    else
      var rest := Chain(outcomes[i..]);
      Outcome(trace + rest.trace, rest.raised)
  }

  /** Taking outcome i moves the resumption point one on without changing where the run ends. */
  lemma ResumeStep(trace: seq<Action>, outcomes: seq<Outcome>, i: nat)
    requires i < |outcomes|
    ensures Resume(trace + outcomes[i].trace, outcomes[i].raised, outcomes, i + 1) ==
            Resume(trace, false, outcomes, i)
  {
    assert outcomes[i..][0] == outcomes[i] && outcomes[i..][1..] == outcomes[i + 1..];
    var entry := outcomes[i];
    var rest := Chain(outcomes[i + 1..]);
    assert trace + (entry.trace + rest.trace) == (trace + entry.trace) + rest.trace;
  }

  /** The body of the loop in `main` for one entry: skip it when it has no URL; otherwise
      fetch, post and pin inside `try`, and post the error report from `except`. */
  method HandleEntry(e: Entry, w: EntryWorld, pin: bool) returns (actions: seq<Action>, raised: bool)
    requires ValidDateTime(w.clock)
    ensures Outcome(actions, raised) == EntryOutcome(e, w, pin)
  {
    actions, raised := [], false;
    if !HasUrl(e) {
      return;
    }
    var failed := false;
    match w.fetch {
      case FetchRaised =>
        failed := true;
      case Page(html) =>
        var tail := PickTwoDecimals(html);
        actions := actions + [SendMessage(MessageText(e.name, tail, w.clock))];
        match w.send {
          case SendRaised =>
            failed := true;
          case Sent(mid) =>
            if PinWanted(pin, mid) {
              actions := actions + [PinMessage(mid.value)];
            }
        }
    }
    if failed {
      actions := actions + [SendMessage(ErrorText(e.name, w.clock))];
      raised := w.errorSendRaises;
    }
  }

  /** The loop of `main`: `for name, url in URLS.items()`, in table order, until an
      exception escapes an iteration. */
  method Run(urls: seq<Entry>, worlds: seq<EntryWorld>, pin: bool) returns (trace: seq<Action>, raised: bool)
    requires |worlds| == |urls| && ValidWorlds(worlds)
    ensures Outcome(trace, raised) == RunSpec(urls, worlds, pin)
  {
    trace, raised := [], false;
    var i := 0;
    ghost var outcomes := EntryOutcomes(urls, worlds, pin);
    assert outcomes[0..] == outcomes;
    while i < |urls| && !raised
      invariant 0 <= i <= |urls|
      invariant Resume(trace, raised, outcomes, i) == RunSpec(urls, worlds, pin)
    {
      var actions, r := HandleEntry(urls[i], worlds[i], pin);
      ResumeStep(trace, outcomes, i);
      trace, raised := trace + actions, r;
      i := i + 1;
    }
    assert !raised ==> trace + Chain(outcomes[i..]).trace == trace;
  }

  /** `main()`: the URL table and the pin switch read from the environment, then the loop. */
  method ScrapeAndPost(env: map<string, string>, worlds: seq<EntryWorld>) returns (trace: seq<Action>, raised: bool)
    requires |worlds| == |UrlVariables| && ValidWorlds(worlds)
    ensures Outcome(trace, raised) == RunSpec(UrlTable(env), worlds, PinAfterSend(env))
  {
    trace, raised := Run(UrlTable(env), worlds, PinAfterSend(env));
  }

  /** Entries are handled in table order: a run over two tables is the run over the first
      followed, unless an exception escaped it, by the run over the second. */
  lemma RunInOrder(t1: seq<Entry>, w1: seq<EntryWorld>, t2: seq<Entry>, w2: seq<EntryWorld>, pin: bool)
    requires |w1| == |t1| && ValidWorlds(w1) && |w2| == |t2| && ValidWorlds(w2)
    ensures ValidWorlds(w1 + w2)
    ensures var first, second := RunSpec(t1, w1, pin), RunSpec(t2, w2, pin);
      RunSpec(t1 + t2, w1 + w2, pin) ==
        if first.raised then first else Outcome(first.trace + second.trace, second.raised)
  {
    ValidWorldsAppend(w1, w2);
    EntryOutcomesAppend(t1, w1, t2, w2, pin);
    ChainAppend(EntryOutcomes(t1, w1, pin), EntryOutcomes(t2, w2, pin));
  }

  lemma ValidWorldsAppend(w1: seq<EntryWorld>, w2: seq<EntryWorld>)
    requires ValidWorlds(w1) && ValidWorlds(w2)
    ensures ValidWorlds(w1 + w2)
  {
    assert forall k :: 0 <= k < |w1 + w2| ==> (w1 + w2)[k] == if k < |w1| then w1[k] else w2[k - |w1|];
  }

  lemma {:induction false} EntryOutcomesAppend(t1: seq<Entry>, w1: seq<EntryWorld>, t2: seq<Entry>, w2: seq<EntryWorld>, pin: bool)
    requires |w1| == |t1| && ValidWorlds(w1) && |w2| == |t2| && ValidWorlds(w2) && ValidWorlds(w1 + w2)
    ensures EntryOutcomes(t1 + t2, w1 + w2, pin) == EntryOutcomes(t1, w1, pin) + EntryOutcomes(t2, w2, pin)
  {
    if t1 == [] {
      assert t1 + t2 == t2 && w1 + w2 == w2;
    } else {
      assert (t1 + t2)[1..] == t1[1..] + t2 && (w1 + w2)[1..] == w1[1..] + w2;
      assert (t1 + t2)[0] == t1[0] && (w1 + w2)[0] == w1[0];
      ValidWorldsAppend(w1[1..], w2);
      EntryOutcomesAppend(t1[1..], w1[1..], t2, w2, pin);
      var head := [EntryOutcome(t1[0], w1[0], pin)];
      var a, b := EntryOutcomes(t1[1..], w1[1..], pin), EntryOutcomes(t2, w2, pin);
      assert head + (a + b) == (head + a) + b;
    }
  }

  /** An entry whose URL is missing or empty sends nothing and the run goes on with the next. */
  lemma SkipsEntryWithoutUrl(e: Entry, w: EntryWorld, table: seq<Entry>, worlds: seq<EntryWorld>, pin: bool)
    requires !HasUrl(e) && ValidDateTime(w.clock) && |worlds| == |table| && ValidWorlds(worlds)
    ensures ValidWorlds([w] + worlds)
    ensures RunSpec([e] + table, [w] + worlds, pin) == RunSpec(table, worlds, pin)
  {
    RunSpecCons(e, w, table, worlds, pin);
    assert [] + RunSpec(table, worlds, pin).trace == RunSpec(table, worlds, pin).trace;
  }

  /** When fetching a page raises, the entry's error report is posted and, if posting it does
      not raise, the run goes on with the next entry. */
  lemma FetchErrorIsReported(e: Entry, w: EntryWorld, table: seq<Entry>, worlds: seq<EntryWorld>, pin: bool)
    requires HasUrl(e) && w.fetch == FetchRaised && !w.errorSendRaises && ValidDateTime(w.clock)
    requires |worlds| == |table| && ValidWorlds(worlds)
    ensures ValidWorlds([w] + worlds)
    ensures var rest := RunSpec(table, worlds, pin);
      RunSpec([e] + table, [w] + worlds, pin) ==
        Outcome([SendMessage(e.name + " : ??\n" + IstNowStr(w.clock) + "\n(error)")] + rest.trace, rest.raised)
  {
    RunSpecCons(e, w, table, worlds, pin);
  }

  /** A page whose first number has one fractional digit: the grouped price after it is
      reported, truncated to two digits, and the message is pinned. */
  lemma ExampleEntry(w: EntryWorld)
    requires w.fetch == Page("1.5 then 25,176.85") && w.send == Sent(Some(42)) && ValidDateTime(w.clock)
    ensures EntryOutcome(Entry("SENSEX", Some("https://example.org")), w, true) ==
      Outcome([SendMessage(MessageText("SENSEX", Some("85"), w.clock)), PinMessage(42)], false)
  {
    var e := Entry("SENSEX", Some("https://example.org"));
    assert HasUrl(e);
    var tail := PickTwoDecimals(w.fetch.text);
    ExampleOneFractionalDigit();
    assert tail == Some("85");
    var msg := SendMessage(MessageText(e.name, tail, w.clock));
    assert EntryOutcome(e, w, true) == Outcome([msg] + [PinMessage(42)], false);
  }

  predicate EndsWithError(text: string) {
    |text| >= 8 && text[|text| - 8..] == "\n(error)"
  }

  /** The error report ends with "(error)"; the price message ends with "IST" instead. */
  lemma TextEndings(name: string, tail: Option<string>, now: DateTime)
    requires ValidDateTime(now)
    ensures EndsWithError(ErrorText(name, now))
    ensures !EndsWithError(MessageText(name, tail, now))
  {
    var st := IstNowStr(now);
    assert st[|st| - 1] == 'T';
    var t := MessageText(name, tail, now);
    assert t[|t| - 1] == st[|st| - 1];
    assert "\n(error)"[7] == ')';
    var u := ErrorText(name, now);
    assert u[|u| - 8..] == "\n(error)";
  }

  /** Every pin request in the trace is allowed by the switch, names a nonzero message id,
      and comes right after a price message (not an error report). */
  predicate PinsFollowMessages(trace: seq<Action>, pin: bool) {
    forall k :: 0 <= k < |trace| && trace[k].PinMessage? ==>
      pin && trace[k].messageId != 0 && k > 0 && trace[k - 1].SendMessage? &&
      !EndsWithError(trace[k - 1].text)
  }

  /** The trace ends with an error report. */
  predicate EndsWithErrorReport(trace: seq<Action>) {
    |trace| > 0 && trace[|trace| - 1].SendMessage? && EndsWithError(trace[|trace| - 1].text)
  }

  lemma PinsFollowMessagesConcat(a: seq<Action>, b: seq<Action>, pin: bool)
    requires PinsFollowMessages(a, pin) && PinsFollowMessages(b, pin)
    ensures PinsFollowMessages(a + b, pin)
  {
    var t := a + b;
    forall k | 0 <= k < |t| && t[k].PinMessage?
      ensures pin && t[k].messageId != 0 && k > 0 && t[k - 1].SendMessage? && !EndsWithError(t[k - 1].text)
    {
      if k >= |a| {
        assert t[k] == b[k - |a|];
        if k > |a| {
          assert t[k - 1] == b[k - 1 - |a|];
        }
      } else {
        assert t[k] == a[k];
        assert t[k - 1] == a[k - 1];
      }
    }
  }

  /** In one entry's requests every pin is allowed by the switch, has a nonzero id and
      follows the entry's price message. */
  lemma EntryPins(e: Entry, w: EntryWorld, pin: bool)
    requires ValidDateTime(w.clock)
    ensures PinsFollowMessages(EntryOutcome(e, w, pin).trace, pin)
  {
    if HasUrl(e) && w.fetch.Page? && w.send.Sent? {
      TextEndings(e.name, PickTwoDecimals(w.fetch.text), w.clock);
    }
  }

  /** An exception escapes an entry only after its error report. */
  lemma EntryRaisesAfterReport(e: Entry, w: EntryWorld, pin: bool)
    requires ValidDateTime(w.clock)
    ensures EntryOutcome(e, w, pin).raised ==> EndsWithErrorReport(EntryOutcome(e, w, pin).trace)
  {
    if HasUrl(e) {
      TextEndings(e.name, None, w.clock);
    }
  }

  lemma {:induction false} PinsFollowMessagesChain(outcomes: seq<Outcome>, pin: bool)
    requires forall k :: 0 <= k < |outcomes| ==> PinsFollowMessages(outcomes[k].trace, pin)
    ensures PinsFollowMessages(Chain(outcomes).trace, pin)
  {
    if outcomes != [] && !outcomes[0].raised {
      PinsFollowMessagesChain(outcomes[1..], pin);
      PinsFollowMessagesConcat(outcomes[0].trace, Chain(outcomes[1..]).trace, pin);
    }
  }

  /** Over a whole run: a pin is requested only when pinning is switched on, only for a
      nonzero message id, and always right after the price message it belongs to. */
  lemma PinsOnlyAfterOwnMessage(table: seq<Entry>, worlds: seq<EntryWorld>, pin: bool)
    requires |worlds| == |table| && ValidWorlds(worlds)
    ensures PinsFollowMessages(RunSpec(table, worlds, pin).trace, pin)
  {
    var os := EntryOutcomes(table, worlds, pin);
    forall k | 0 <= k < |os| ensures PinsFollowMessages(os[k].trace, pin) {
      EntryPins(table[k], worlds[k], pin);
    }
    PinsFollowMessagesChain(os, pin);
  }

  /** With pinning switched off in the environment, `main` never requests a pin. */
  lemma NoPinWhenSwitchedOff(env: map<string, string>, worlds: seq<EntryWorld>)
    requires "PIN_AFTER_SEND" in env && env["PIN_AFTER_SEND"] != "1"
    requires |worlds| == |UrlVariables| && ValidWorlds(worlds)
    ensures forall a :: a in RunSpec(UrlTable(env), worlds, PinAfterSend(env)).trace ==> !a.PinMessage?
  {
    var trace := RunSpec(UrlTable(env), worlds, PinAfterSend(env)).trace;
    PinsOnlyAfterOwnMessage(UrlTable(env), worlds, PinAfterSend(env));
    forall a | a in trace ensures !a.PinMessage? {
      var k :| 0 <= k < |trace| && trace[k] == a;
      assert !PinAfterSend(env);
    }
  }

  lemma {:induction false} RaisedAfterErrorReportChain(outcomes: seq<Outcome>)
    requires forall k :: 0 <= k < |outcomes| && outcomes[k].raised ==> EndsWithErrorReport(outcomes[k].trace)
    ensures Chain(outcomes).raised ==> EndsWithErrorReport(Chain(outcomes).trace)
  {
    if outcomes != [] && !outcomes[0].raised {
      RaisedAfterErrorReportChain(outcomes[1..]);
      var rest := Chain(outcomes[1..]);
      if rest.raised {
        var t := outcomes[0].trace + rest.trace;
        assert t[|t| - 1] == rest.trace[|rest.trace| - 1];
      }
    }
  }

  /** A run that ends in an exception ends with an error report (whose own request raised). */
  lemma RaisedAfterErrorReport(table: seq<Entry>, worlds: seq<EntryWorld>, pin: bool)
    requires |worlds| == |table| && ValidWorlds(worlds)
    ensures RunSpec(table, worlds, pin).raised ==> EndsWithErrorReport(RunSpec(table, worlds, pin).trace)
  {
    var os := EntryOutcomes(table, worlds, pin);
    forall k | 0 <= k < |os| && os[k].raised ensures EndsWithErrorReport(os[k].trace) {
      EntryRaisesAfterReport(table[k], worlds[k], pin);
    }
    RaisedAfterErrorReportChain(os);
  }
}

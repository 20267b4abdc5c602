# Index price bots, modelled in Dafny

Two small Telegram bots post stock-index updates to a chat.

- `bot.py` (the scraper) goes over a fixed table of six index pages.
  - An entry with no URL is skipped.
  - Otherwise it downloads the page and finds the first price-like number with one regular expression. It posts `NAME : dd` and a `DD-MM-YYYY HH:MM IST` stamp, where `dd` is the two digits after that number's decimal point.
  - When `PIN_AFTER_SEND` allows it and the reply carried a nonzero message id, the message is pinned.
  - If fetching or posting raises, it posts an error report ending in `(error)` and moves on to the next entry, unless posting the report raises as well, which ends the run.
- `bot_action.py` (the quote reporter) looks an index up in a fixed table of six indexes and fetches that index's quote.
  - It posts the price, the signed percentage change, a date label and the price's two decimals. When pinning is asked for and the post succeeded, it then unpins all messages, and pins the new one when a nonzero message id came back.
  - The Dow's report, which arrives at night Indian time, is labelled with the previous day when the IST hour is below 6.

The model has these modules:

- `Wrappers` is the `Option` type.
- `Numerals` renders and reads back decimal digits, naturals and the two-decimal `"%.2f"` form of a number given exactly in hundredths.
- `Calendar` holds proleptic Gregorian dates, times to the minute and the fixed +05:30 offset of India Standard Time.
- `Chat` holds the trace of chat requests (send, unpin all, pin) and the outcome of a run: the trace plus whether an exception escaped.
- `TailScan` is `pick_two_decimals` of `bot.py`.
  - It specifies the regular expression `(?:\d{1,3}(?:,\d{3})+|\d+)\.(\d{2})` as a predicate on a start and a point position.
  - The leftmost-match search is an index scan proved against that predicate.
- `ScraperBot` is the rest of `bot.py`: the URL table, the pin switch, the message texts and the stamp.
  - `main`'s loop is a method proved equal to a specification of the run.
  - The properties of the run are lemmas about that specification.
- `QuoteBot` is `bot_action.py`: the index table, `pct_str`, `dec_two`, `yahoo_quote`, the date label, `send` and `main`.

The outside world is an input in both models:

- the page text or fetch failure;
- the clock reading;
- the quote service's reply;
- each chat request's reply or exception.

The trace records every chat request a script attempts: sendMessage, unpinAllChatMessages and pinChatMessage. The HTTP GETs are not in it. `QuoteBot.Report` reports the quote request in its separate `requested` output, and `bot.py`'s page requests are represented only by their results.

Where the two scripts' text and code could be read differently, the model follows the code:

- A price that is not a number gets `dec_two == "00"` (`bot_action.py:78`). The very next statement still formats that price with `:.2f` (`bot_action.py:81`), which raises. So such a report is never sent. `QuoteBot.Report` models this as written: nothing is sent and the script raises.
- `bot.py`'s `pin_message` swallows its own exceptions. A failed pin therefore does not lead to an error report.

## Model

| member | source | states |
|---|---|---|
| Numerals.NatToStringValue | bot_action.py:34 | the decimal rendering of a natural reads back as that natural |
| Numerals.Fixed2 | bot_action.py:34 | computes `f"{x:.2f}"` of a number given exactly in hundredths: '-' for a negative number, the integer digits of the magnitude, '.', and two fractional digits; `Fixed2RoundTrip` reads it back |
| Numerals.Fixed2Lead | bot_action.py:34 | the rendering has at least four characters and starts with '-' exactly for a negative number |
| Numerals.ParseUnsigned2Value | bot_action.py:34 | the unsigned part of the `"%.2f"` rendering, integer digits, '.' and two digits, reads back as the magnitude |
| Numerals.Fixed2RoundTrip | bot_action.py:34 | the `"%.2f"` rendering of an exact number of hundredths loses nothing: reading it back gives the number |
| Numerals.Fixed2Fraction | bot_action.py:78 | the piece after the point of the `"%.2f"` rendering is two digits worth \|x\| mod 100 hundredths, the same for x and -x |
| Calendar.DaysInMonth | bot_action.py:74 | month lengths are 28..31, and 29 exactly for February of a Gregorian leap year |
| Calendar.NextDay | bot_action.py:17 | the day after a valid date is valid and later in calendar order |
| Calendar.PrevDay | bot_action.py:74 | the day before a valid date is valid and earlier in calendar order, rolling back over month and year starts |
| Calendar.NextDayIsSuccessor | bot_action.py:17 | no valid date lies strictly between a date and the next day |
| Calendar.PrevNextInverse | bot_action.py:74 | stepping a day back and a day forward undo each other |
| Calendar.PrevDayOfNewYear | bot_action.py:74 | the day before 1 January of year y is 31 December of year y-1 |
| Calendar.UtcToIst | bot_action.py:16-17 | `ist_now`: a valid UTC wall-clock time shifted by +05:30 is a valid time; `IstShift` and `IstRoundTrip` state the shift |
| Calendar.AddSubtractInverse | bot_action.py:17 | shifting a time forward and back by less than a day returns the original time |
| Calendar.IstShift | bot_action.py:16-17 | the IST clock reads 5h30m past UTC modulo a day; the IST date is the next UTC day exactly when the UTC time of day is 18:30 or later, and the UTC date otherwise |
| Calendar.IstRoundTrip | bot_action.py:16-17 | converting UTC to IST and back, or IST to UTC and back, is the identity |
| Calendar.YearTextValue | bot.py:57 | `%Y` of a year 0..9999 is four digits reading back as the year |
| Calendar.Pad2Value | bot.py:57 | `%d`/`%m`/`%H`/`%M` is two digits reading back as the number |
| TailScan.IntegerPartChars | bot.py:30 | an integer part of the pattern consists of digits and commas and ends with a digit |
| TailScan.DotUnique | bot.py:30 | for a given start the pattern can use only one decimal point, so a match is determined by its start |
| TailScan.RunEnd | bot.py:30 | the scan for the end of a digit-and-comma run stops at the first other character |
| TailScan.DotAt | bot.py:30 | the match attempt at a start yields a point position exactly when the pattern matches there, and that position satisfies the pattern |
| TailScan.FirstMatch | bot.py:30 | the index scan returns the leftmost matching start at or after i, or none when no later start matches |
| TailScan.PickTwoDecimals | bot.py:25-31 | a result is always two ASCII digits |
| TailScan.PickTwoDecimalsLeftmost | bot.py:25-31 | None exactly when no position starts a match; otherwise the two characters after the point of a match with no match starting before it |
| TailScan.PickAtFirstMatch | bot.py:30-31 | when the scan's first match starts at i with its point at p, the result is the two characters after p |
| TailScan.ResultFollowsDigitAndPoint | bot.py:30 | a result is the two characters right after a '.' whose preceding character is a digit |
| TailScan.LeftmostDetermines | bot.py:30-31 | a match with no match before it decides the result |
| TailScan.Truncates | bot.py:26-30 | digits, a point and two digits give those two digits whatever follows: extra fractional digits are ignored, not rounded |
| TailScan.EarlierMatchInPrefix | bot.py:30 | a match of s + t that starts before a match of s lies within s |
| TailScan.NoEarlierMatchAfterAppend | bot.py:30 | appending text cannot create a match before an existing one |
| TailScan.AppendKeepsResult | bot.py:30-31 | appending text to a page that already yields digits never changes them |
| TailScan.ExampleLeftmost | bot.py:30 | "10.25 and 20.50" gives "25" |
| TailScan.ExampleTruncation | bot.py:30 | "12.345" gives "34" |
| TailScan.ExampleGrouped | bot.py:26-30 | "25,176.85" gives "85" |
| TailScan.ExampleOneFractionalDigit | bot.py:30 | in "1.5 then 25,176.85" the number with one fractional digit is skipped and the result is "85" |
| TailScan.FirstMatchSkipsShortFraction | bot.py:30 | the scan over "1.5 then 25,176.85" finds its first match at position 9 |
| ScraperBot.UrlTable | bot.py:8-15 | the table has the six indexes in order, each URL present exactly when its variable is set, and then equal to its value |
| ScraperBot.PinAfterSend | bot.py:17 | pinning is on exactly when `PIN_AFTER_SEND` is unset or exactly "1" |
| ScraperBot.FormatStamp | bot.py:57 | computes `strftime("%d-%m-%Y %H:%M IST")` of a clock reading; `StampRoundTrip` reads it back |
| ScraperBot.IstNowStr | bot.py:55-57 | `ist_now_str`: the stamp of the Asia/Kolkata clock reading, which is an input |
| ScraperBot.MessageText | bot.py:67-68 | computes the price message `f"{name} : {tail_txt}\n{ist_now_str()}"`, "??" standing in for a missing tail; `MessageTextShape` states its layout |
| ScraperBot.ErrorText | bot.py:73 | computes the error report `f"{name} : ??\n{ist_now_str()}\n(error)"`; `ErrorTextShape` states its layout |
| ScraperBot.StampRoundTrip | bot.py:55-57 | the stamp is 20 characters "DD-MM-YYYY HH:MM IST" and reads back as the clock reading |
| ScraperBot.MessageTextShape | bot.py:67-68 | a price message is "NAME : dd" (or "NAME : ??" when no number was found), a line break and a stamp that reads back as the clock reading |
| ScraperBot.ErrorTextShape | bot.py:73 | an error report is "NAME : ??", a line break, a stamp that reads back as the clock reading, and "\n(error)" |
| ScraperBot.TextEndings | bot.py:68-73 | error reports end with "\n(error)" and price messages never do |
| ScraperBot.EntryOutcome | bot.py:63-74 | computes one loop iteration's requests and escaping exception: nothing without a URL; the price message and, when wanted, its pin; after a fetch or send exception the error report, which raises when its own send raises; `EntryPins` and `EntryRaisesAfterReport` state its properties |
| ScraperBot.RunSpec | bot.py:62-74 | computes the whole loop: the entries' outcomes in table order, chained until one raises; `Run` is proved equal to it |
| ScraperBot.ChainAppend | bot.py:62-74 | running two lists of entry outcomes one after the other is the first, followed by the second unless the first raised |
| ScraperBot.RunSpecCons | bot.py:62-74 | the first entry runs first; the run stops there if it raised and continues with the rest otherwise |
| ScraperBot.ResumeStep | bot.py:62-74 | appending one entry's requests and exception to the trace moves the loop's resumption point one entry on without changing the run's result |
| ScraperBot.HandleEntry | bot.py:63-74 | one iteration: skip without URL; fetch, post and pin (pin failures swallowed); on an exception post the error report, whose own failure escapes |
| ScraperBot.Run | bot.py:62-74 | the loop's trace and escaping exception are exactly those of the run specification, entry by entry in table order |
| ScraperBot.ScrapeAndPost | bot.py:59-74 | `main` runs the loop over the environment's URL table with the environment's pin switch |
| ScraperBot.RunInOrder | bot.py:62 | entries are handled in table order: a run over two tables is the first run followed, unless it raised, by the second |
| ScraperBot.SkipsEntryWithoutUrl | bot.py:63-64 | an entry whose URL is missing or empty sends nothing and the run goes on with the next |
| ScraperBot.FetchErrorIsReported | bot.py:72-74 | when fetching raises, the error report is posted, and processing continues with the next entry when posting the report does not raise |
| ScraperBot.ExampleEntry | bot.py:65-71 | a page "1.5 then 25,176.85" answered with message id 42 posts "SENSEX : 85" with the stamp and pins message 42 |
| ScraperBot.EntryPins | bot.py:63-71 | in one entry's requests every pin follows a price message, is allowed by the switch and has a nonzero id |
| ScraperBot.EntryRaisesAfterReport | bot.py:72-74 | when one entry lets an exception escape, its requests end with the error report |
| ScraperBot.PinsFollowMessagesChain | bot.py:62-74 | when every entry's pins follow its own price messages, the pins of the whole run do too |
| ScraperBot.RaisedAfterErrorReportChain | bot.py:62-74 | when every entry that raises ends with its error report, a run that raises ends with one |
| ScraperBot.PinsOnlyAfterOwnMessage | bot.py:70-71 | over a whole run, a pin is requested only when pinning is on, only for a nonzero message id, and right after the price message |
| ScraperBot.NoPinWhenSwitchedOff | bot.py:17 | when `PIN_AFTER_SEND` is set to anything but "1", no pin is ever requested |
| ScraperBot.RaisedAfterErrorReport | bot.py:72-74 | a run that ends in an exception ends with an error report |
| QuoteBot.IndexTableShape | bot_action.py:50-57 | the table has exactly the keys SENSEX, HSI, KOSPI, DAX, DOW and TAIWAN, distinct quote symbols, and pinning on for all |
| QuoteBot.PctStr | bot_action.py:33-35 | `pct_str`: the text starts with '+' exactly when the value is not negative and with '-' exactly when it is negative |
| QuoteBot.PctStrSign | bot_action.py:33-35 | the percentage text starts with '+' exactly when the value is not negative and with '-' otherwise, and reads back as the value |
| QuoteBot.UpToPoint | bot_action.py:78 | the piece before the first '.' is a prefix of the text without '.', followed in the text by a '.' unless it is all of it |
| QuoteBot.SecondPiece | bot_action.py:78 | `split(".")[1]`: None (an index error) exactly when the text has no '.'; otherwise a piece without '.' shorter than the text |
| QuoteBot.SecondPieceAfter | bot_action.py:78 | `split(".")[1]` of "a.b" without other points is b |
| QuoteBot.DecTwo | bot_action.py:78 | two ASCII digits: "00" for a non-number, and for a number the last two characters of its `"%.2f"` rendering |
| QuoteBot.SecondPieceOfFixed2 | bot_action.py:78 | `split(".")[1]` of a `"%.2f"` rendering is its last two characters |
| QuoteBot.DecTwoIgnoresSign | bot_action.py:78 | the decimals of a price and its negation are the same |
| QuoteBot.YahooQuote | bot_action.py:37-48 | raises (None) when the request fails or the result list is empty; otherwise the first record's price, change, percent change and time, a missing field reading as None |
| QuoteBot.YahooQuoteFirstRecord | bot_action.py:43 | records after the first never change the quote |
| QuoteBot.LabelDate | bot_action.py:72-74 | the label differs from the IST date exactly for the Dow before 06:00 IST, and is then the day before |
| QuoteBot.LabelDateFromUtc | bot_action.py:16-17 | in UTC terms the Dow is labelled with the UTC date, except before 00:30 UTC when it gets the day before; other indexes get the IST date |
| QuoteBot.DowLabelAtNewYear | bot_action.py:72-74 | the Dow at 01:41 IST on 1 January is labelled 31 December of the year before |
| QuoteBot.MonthOfAbbreviation | bot_action.py:83 | an abbreviation that is recognised names a month 1..12 whose `%b` abbreviation it is |
| QuoteBot.MonthAbbreviationRoundTrip | bot_action.py:83 | each month's `%b` abbreviation has three letters and is recognised as that month |
| QuoteBot.FormatLabel | bot_action.py:83 | computes `strftime('%d-%b-%Y')` of the label date; `LabelRoundTrip` reads it back |
| QuoteBot.LabelRoundTrip | bot_action.py:83 | the `%d-%b-%Y` label is 11 characters and reads back as its date |
| QuoteBot.ReportText | bot_action.py:80-84 | computes the report: the title and price in bold, the signed percentage, the date label and the decimals in bold; `ReportDecimalsMatchPrice` states how it ends |
| QuoteBot.ReportDecimalsMatchPrice | bot_action.py:78-84 | the report ends with the two digits after the point of the price it shows, then "</b>", and they are worth \|price\| mod 100 hundredths |
| QuoteBot.PinSteps | bot_action.py:22-31 | after sending: unpin-all exactly when pinning was asked for and the reply was ok, followed by a pin of the returned id exactly when that id is present and nonzero |
| QuoteBot.Send | bot_action.py:19-31 | the trace is the message then the pin steps; it raises exactly when sendMessage raises or the pin request raises, never because of unpin-all |
| QuoteBot.Report | bot_action.py:59-86 | an unknown index gets exactly one unpinned "❌ Unknown INDEX: …" message and no quote request; a known index fetches its symbol; a failed quote or a non-numeric price or percentage sends nothing and raises; otherwise the report with the date label is sent with pinning |

## Left out

- HTTP and chat requests are replaced by their results, given as inputs: page text or failure, the quote reply, send replies and exceptions. This covers `requests`, `raise_for_status` and the Telegram endpoints.
- `r.json()` failing on a reply that is not JSON is not distinguished from the request itself raising. The same goes for a `result` field that is not a list, and for a `message_id` that is not an integer.
- Environment loading, the `BOT_TOKEN`/`CHAT_ID` guard, `assert`, `sys.exit` and the `print` logging are configuration and output plumbing. The environment is a map parameter of `ScraperBot.ScrapeAndPost`; `INDEX` is a parameter of `QuoteBot.Report`.
- `INDEX`'s `.upper().strip()` normalisation is not modelled. `str.upper()` applies Unicode's default case mapping (`"ß".upper() == "SS"`), which is not modelled, so `QuoteBot.Report` receives the normalised value.
- Clock reads are inputs. `bot.py` reads the Asia/Kolkata clock once for the price message (`bot.py:68`) and once more for the error report (`bot.py:73`). An entry whose fetch raises reads it only for the report; an entry whose send raises reads it twice. The model uses one IST reading per entry, and that Asia/Kolkata wall-clock reading is itself the input (`ScraperBot.IstNowStr`), so no offset or time-zone database is modelled for `bot.py`. `bot_action.py` itself converts UTC with a fixed +05:30 offset (`bot_action.py:17`), which `Calendar.UtcToIst` models.
- Seconds and microseconds are not modelled: nothing that is formatted or compared depends on them.
- Prices and percentages are exact integers of hundredths. Binary floating point is not modelled: its rounding of values with more than two decimals, NaN, infinities, and the signed zero that would make `pct_str(-0.0)` read "+-0.00".
- Booleans count as numbers in Python's `isinstance(price, (float, int))`. They are not modelled separately: any number is `Num` and anything else is `NonNumeric`.
- Python's `\d` matches every Unicode decimal digit; the model only matches ASCII `0`-`9`.
- `%b` is the C-locale English abbreviation. Other locales are not modelled.
- Years are unbounded. Python's `datetime` range of 1..9999 and its `OverflowError` at the ends are not modelled. The stamp and label round trips are stated for years 0..9999.
- `regularMarketChange` and `regularMarketTime` are selected by `QuoteBot.YahooQuote` but never used by the script, so nothing more is stated about them.

/** bot_action.py: look the index up in the fixed table, fetch its quote, and post
    "<b>Label</b> : <b>price</b> (±pct%)" with a date label and the price's two decimals,
    pinning the message. The quote service, the clock and the chat API are inputs;
    prices and percentages are exact numbers of hundredths. */
module QuoteBot {
  import opened Wrappers
  import opened Numerals
  import opened Calendar
  import opened Chat

  /** One row of MAP: the label shown in the message, the quote symbol, and whether to pin. */
  datatype IndexMeta = IndexMeta(title: string, yahoo: string, pin: bool)

  /** MAP. */
  const IndexTable: map<string, IndexMeta> := map[
    "SENSEX" := IndexMeta("Sensex", "^BSESN", true),
    "HSI" := IndexMeta("Hang Seng", "^HSI", true),
    "KOSPI" := IndexMeta("KOSPI", "^KS11", true),
    "DAX" := IndexMeta("DAX", "^GDAXI", true),
    "DOW" := IndexMeta("Dow Jones", "^DJI", true),
    "TAIWAN" := IndexMeta("Taiwan", "^TWII", true)
  ]

  /** The table knows exactly six indexes, and every one of them asks for its report to be pinned. */
  lemma IndexTableShape()
    ensures IndexTable.Keys == {"SENSEX", "HSI", "KOSPI", "DAX", "DOW", "TAIWAN"}
    ensures forall k :: k in IndexTable ==> IndexTable[k].pin
    ensures forall k, j :: k in IndexTable && j in IndexTable && k != j ==> IndexTable[k].yahoo != IndexTable[j].yahoo
  {
  }

  // ---------------------------------------------------------------- numbers

  /** A value read from the quote's JSON: a number (given exactly in hundredths), or
      anything else, including a missing field (`None`). */
  datatype Quantity = Num(hundredths: int) | NonNumeric

  /** `pct_str`: the two-decimal rendering, with '+' in front exactly when the value is not negative. */
  function PctStr(pct: int): (s: string)
    ensures |s| >= 4 && (s[0] == '+' <==> pct >= 0) && (s[0] == '-' <==> pct < 0)
  {
    Fixed2Lead(pct);
    (if pct >= 0 then "+" else "") + Fixed2(pct)
  }

  /** Reads a PctStr rendering back: an optional '+' before a Fixed2 rendering. */
  function ParsePct(s: string): Option<int> {
    if |s| > 0 && s[0] == '+' then
      match ParseFixed2(s[1..])
      case Some(v) => if v >= 0 then Some(v) else None
      case None => None
    else
      match ParseFixed2(s)
      case Some(v) => if v < 0 then Some(v) else None
      case None => None
  }

  /** The sign rule: the text starts with '+' exactly when the value is not negative, and
      with the rendering's own '-' otherwise; it reads back as the value it shows. */
  lemma PctStrSign(pct: int)
    ensures |PctStr(pct)| > 0
    ensures PctStr(pct)[0] == '+' <==> pct >= 0
    ensures PctStr(pct)[0] == '-' <==> pct < 0
    ensures ParsePct(PctStr(pct)) == Some(pct)
  {
    Fixed2RoundTrip(pct);
    if pct >= 0 {
      assert Fixed2(pct) == Unsigned2(pct);
      assert PctStr(pct)[1..] == Fixed2(pct);
    } else {
      assert PctStr(pct) == Fixed2(pct);
    }
  }

  /** The text before the first '.' (all of it when there is none). */
  function UpToPoint(s: string): (r: string)
    ensures |r| <= |s| && r == s[..|r|] && NoPoint(r)
    ensures |r| < |s| ==> s[|r|] == '.'
  {
    if s == [] || s[0] == '.' then [] else [s[0]] + UpToPoint(s[1..])
  }

  /** `s.split(".")[1]`: the piece between the first and the second '.', or None when
      there is no '.' (the index would be out of range). */
  function SecondPiece(s: string): (r: Option<string>)
    ensures r.None? <==> NoPoint(s)
    ensures r.Some? ==> NoPoint(r.value) && |r.value| < |s|
  {
    if s == [] then None
    else if s[0] == '.' then Some(UpToPoint(s[1..]))
    else SecondPiece(s[1..])
  }

  predicate NoPoint(s: string) {
    forall k :: 0 <= k < |s| ==> s[k] != '.'
  }

  lemma {:induction false} UpToPointAll(s: string)
    requires NoPoint(s)
    ensures UpToPoint(s) == s
  {
    if s != [] {
      UpToPointAll(s[1..]);
    }
  }

  lemma {:induction false} SecondPieceAfter(a: string, b: string)
    requires NoPoint(a) && NoPoint(b)
    ensures SecondPiece(a + "." + b) == Some(b)
  {
    if a == [] {
      assert a + "." + b == "." + b;
      assert ("." + b)[1..] == b;
      UpToPointAll(b);
    } else {
      assert (a + "." + b)[1..] == a[1..] + "." + b;
      SecondPieceAfter(a[1..], b);
    }
  }

  /** `dec_two`: for a number, the piece after the point of its two-decimal rendering;
      "00" for anything else. */
  function DecTwo(price: Quantity): (r: string)
    ensures |r| == 2 && AllDigits(r)
    ensures price.NonNumeric? ==> r == "00"
    ensures price.Num? ==> r == Fraction2(Fixed2(price.hundredths))
  {
    match price
    case NonNumeric => "00"
    case Num(h) =>
      SecondPieceOfFixed2(h);
      Fixed2Fraction(h);
      SecondPiece(Fixed2(h)).value
  }

  /** The piece after the point of a two-decimal rendering is its last two characters. */
  lemma SecondPieceOfFixed2(h: int)
    ensures |Fixed2(h)| >= 2 && SecondPiece(Fixed2(h)) == Some(Fraction2(Fixed2(h)))
  {
    var m: nat := if h < 0 then -h else h;
    var whole, frac := NatToString(m / 100), FixedDigits(m % 100, 2);
    var sign := if h < 0 then "-" else "";
    assert Fixed2(h) == (sign + whole) + "." + frac;
    SecondPieceAfter(sign + whole, frac);
  }

  /** The decimals shown do not depend on the sign of the price. */
  lemma DecTwoIgnoresSign(h: int)
    ensures DecTwo(Num(h)) == DecTwo(Num(-h))
  {
    Fixed2Fraction(h);
  }

  // ---------------------------------------------------------------- the quote

  /** One entry of `quoteResponse.result`: field name to value; a missing field reads as None. */
  type QuoteRecord = map<string, Quantity>

  function Field(x: QuoteRecord, key: string): Quantity {
    if key in x then x[key] else NonNumeric
  }

  /** The quote request: it raises (network error, error status, unexpected JSON), or yields
      the `result` list. */
  datatype QuoteReply = QuoteRaised | Results(records: seq<QuoteRecord>)

  datatype Quote = Quote(price: Quantity, change: Quantity, changep: Quantity, exchTs: Quantity)

  /** `yahoo_quote`: None when it raises (the request failed, or the list is empty),
      otherwise the four fields of the first record, in order. */
  function YahooQuote(reply: QuoteReply): (r: Option<Quote>)
    ensures r.None? <==> reply.QuoteRaised? || reply.records == []
    ensures r.Some? ==>
      r.value.price == Field(reply.records[0], "regularMarketPrice") &&
      r.value.change == Field(reply.records[0], "regularMarketChange") &&
      r.value.changep == Field(reply.records[0], "regularMarketChangePercent") &&
      r.value.exchTs == Field(reply.records[0], "regularMarketTime")
  {
    match reply
    case QuoteRaised => None
    case Results(q) =>
      if q == [] then None
      else
        var x := q[0];
        Some(Quote(Field(x, "regularMarketPrice"), Field(x, "regularMarketChange"),
                   Field(x, "regularMarketChangePercent"), Field(x, "regularMarketTime")))
  }

  /** Only the first record matters: records after it never change the quote. */
  lemma YahooQuoteFirstRecord(first: QuoteRecord, rest: seq<QuoteRecord>, other: seq<QuoteRecord>)
    ensures YahooQuote(Results([first] + rest)) == YahooQuote(Results([first] + other))
  {
  }

  // ---------------------------------------------------------------- the date label

  /** `label_date`: the IST date, except for the Dow before 06:00 IST, which is labelled
      with the day before. */
  function LabelDate(index: string, ist: DateTime): (d: Date)
    requires ValidDateTime(ist)
    ensures ValidDate(d)
    ensures d != ist.date <==> index == "DOW" && ist.hour < 6
    ensures d != ist.date ==> NextDay(d) == ist.date
  {
    PrevNextInverse(ist.date);
    if index == "DOW" && ist.hour < 6 then PrevDay(ist.date) else ist.date
  }

  /** In UTC terms: the Dow is labelled with the UTC date, except during the first half
      hour after UTC midnight, when it gets the day before; every other index is labelled
      with the IST date. */
  lemma LabelDateFromUtc(index: string, utc: DateTime)
    requires ValidDateTime(utc)
    ensures index == "DOW" ==>
      LabelDate(index, UtcToIst(utc)) == if MinuteOfDay(utc) < 30 then PrevDay(utc.date) else utc.date
    ensures index != "DOW" ==> LabelDate(index, UtcToIst(utc)) == UtcToIst(utc).date
  {
    IstShift(utc);
    PrevNextInverse(utc.date);
  }

  /** The Friday-night case across a year end: 01:41 IST on 1 January is labelled 31 December. */
  lemma DowLabelAtNewYear(y: int)
    ensures LabelDate("DOW", DateTime(Date(y, 1, 1), 1, 41)) == Date(y - 1, 12, 31)
  {
    PrevDayOfNewYear(y);
  }

  const MonthAbbreviations: seq<string> :=
    ["Jan", "Feb", "Mar", "Apr", "May", "Jun", "Jul", "Aug", "Sep", "Oct", "Nov", "Dec"]

  /** The month whose abbreviation is s, if any. */
  function MonthOfAbbreviation(s: string): (m: Option<int>)
    ensures m.Some? ==> 1 <= m.value <= 12 && MonthAbbreviations[m.value - 1] == s
  {
    if s == "Jan" then Some(1) else if s == "Feb" then Some(2) else if s == "Mar" then Some(3)
    else if s == "Apr" then Some(4) else if s == "May" then Some(5) else if s == "Jun" then Some(6)
    else if s == "Jul" then Some(7) else if s == "Aug" then Some(8) else if s == "Sep" then Some(9)
    else if s == "Oct" then Some(10) else if s == "Nov" then Some(11) else if s == "Dec" then Some(12)
    else None
  }

  /** `strftime('%d-%b-%Y')`. */
  function FormatLabel(d: Date): string
    requires ValidDate(d)
  {
    Pad2(d.day) + "-" + MonthAbbreviations[d.month - 1] + "-" + YearText(d.year)
  }

  /** Reads a "DD-Mon-YYYY" label back; None for any other text. */
  function ParseLabel(s: string): Option<Date> {
    if |s| == 11 && s[2] == '-' && s[6] == '-' && AllDigits(s[..2]) && AllDigits(s[7..]) &&
       MonthOfAbbreviation(s[3..6]).Some?
    then Some(Date(DigitsValue(s[7..]), MonthOfAbbreviation(s[3..6]).value, DigitsValue(s[..2])))
    else None
  }

  /** The label has the fixed shape "DD-Mon-YYYY" and reads back as its date (four-digit years). */
  lemma LabelRoundTrip(d: Date)
    requires ValidDate(d) && 0 <= d.year < 10000
    ensures |FormatLabel(d)| == 11
    ensures ParseLabel(FormatLabel(d)) == Some(d)
  {
    Pad2Value(d.day);
    YearTextValue(d.year);
    MonthAbbreviationRoundTrip(d.month);
    LabelPieces(Pad2(d.day), MonthAbbreviations[d.month - 1], YearText(d.year));
  }

  /** Every month's abbreviation is three characters and names that month. */
  lemma MonthAbbreviationRoundTrip(m: int)
    requires 1 <= m <= 12
    ensures |MonthAbbreviations[m - 1]| == 3
    ensures MonthOfAbbreviation(MonthAbbreviations[m - 1]) == Some(m)
  {
  }

  /** Where the pieces of a "DD-Mon-YYYY" label sit. */
  lemma LabelPieces(dd: string, mon: string, yyyy: string)
    requires |dd| == 2 && |mon| == 3 && |yyyy| == 4
    ensures var s := dd + "-" + mon + "-" + yyyy;
      |s| == 11 && s[2] == '-' && s[6] == '-' && s[..2] == dd && s[3..6] == mon && s[7..] == yyyy
  {
    var s := dd + "-" + mon + "-" + yyyy;
    assert s[..2] == dd;
    assert s[3..6] == mon;
    assert s[7..] == yyyy;
  }

  // ---------------------------------------------------------------- messages and sending

  /** The reply to an index missing from the table. */
  function UnknownIndexText(index: string): string {
    "\U{274C} Unknown INDEX: " + index
  }

  /** The report: label, price and signed change in percent, then the date label and the
      price's two decimals. */
  function ReportText(title: string, price: int, changep: int, date: Date): string
    requires ValidDate(date)
  {
    "<b>" + title + "</b> : <b>" + Fixed2(price) + "</b> (" + PctStr(changep) + "%)\nDate: " +
    FormatLabel(date) + "  \U{2022}  Decimals: <b>" + DecTwo(Num(price)) + "</b>"
  }

  /** The decimals field of a report repeats the last two digits of the price it shows. */
  lemma ReportDecimalsMatchPrice(title: string, price: int, changep: int, date: Date)
    requires ValidDate(date)
    ensures var t := ReportText(title, price, changep, date);
      |t| >= 6 && t[|t| - 6..|t| - 4] == Fraction2(Fixed2(price)) && t[|t| - 4..] == "</b>"
    ensures DigitsValue(DecTwo(Num(price))) == (if price < 0 then -price else price) % 100
  {
    ClosingField("<b>" + title + "</b> : <b>" + Fixed2(price) + "</b> (" + PctStr(changep) + "%)\nDate: " +
                 FormatLabel(date) + "  \U{2022}  Decimals: <b>", DecTwo(Num(price)));
    Fixed2Fraction(price);
  }

  /** The last two characters before a closing `</b>`. */
  lemma ClosingField(front: string, field: string)
    requires |field| == 2
    ensures var t := front + field + "</b>";
      |t| >= 6 && t[|t| - 6..|t| - 4] == field && t[|t| - 4..] == "</b>"
  {
  }

  /** The sendMessage request: it raises, or answers with its `ok` flag and the message id
      (None when the reply carried none). */
  datatype PostReply = PostRaised | Posted(ok: bool, messageId: Option<int>)

  /** What the chat API does during one `send`: the sendMessage reply, and whether the
      unpinAllChatMessages and pinChatMessage requests raise. */
  datatype SendWorld = SendWorld(post: PostReply, unpinRaises: bool, pinRaises: bool)

  /** `if pin and r.ok`. */
  predicate Pinning(pin: bool, post: PostReply) {
    pin && post.Posted? && post.ok
  }

  /** The requests `send` makes after sendMessage: none, or unpin-all followed, when the
      reply carried a usable id, by pinning that message. */
  function PinSteps(pin: bool, post: PostReply): (steps: seq<Action>)
    ensures |steps| <= 2
    ensures |steps| > 0 <==> Pinning(pin, post)
    ensures |steps| > 0 ==> steps[0] == UnpinAll
    ensures |steps| == 2 <==> Pinning(pin, post) && UsableId(post.messageId)
    ensures |steps| == 2 ==> steps[1] == PinMessage(post.messageId.value)
  {
    if Pinning(pin, post) then
      [UnpinAll] + (if UsableId(post.messageId) then [PinMessage(post.messageId.value)] else [])
    else []
  }

  /** `send(text, pin)`: post the message; when pinning is asked for and the reply is ok,
      unpin everything (a failure there is caught and ignored) and pin the new message when
      its id is usable. Exceptions from sendMessage and pinChatMessage escape. */
  method Send(text: string, pin: bool, w: SendWorld) returns (trace: seq<Action>, raised: bool)
    ensures trace == [SendMessage(text)] + PinSteps(pin, w.post)
    ensures raised <==> w.post.PostRaised? || (Pinning(pin, w.post) && UsableId(w.post.messageId) && w.pinRaises)
  {
    trace := [SendMessage(text)];
    raised := false;
    match w.post {
      case PostRaised =>
        raised := true;
      case Posted(ok, mid) =>
        if pin && ok {
          trace := trace + [UnpinAll];
          if mid.Some? && mid.value != 0 {
            trace := trace + [PinMessage(mid.value)];
            raised := w.pinRaises;
          }
        }
    }
  }

  /** The quote can be reported: it was fetched and both the price and the percentage are
      numbers (otherwise formatting them raises). */
  predicate Reportable(reply: QuoteReply) {
    var q := YahooQuote(reply);
    q.Some? && q.value.price.Num? && q.value.changep.Num?
  }

  /** `main()`, given the (normalised) INDEX value, the quote service's reply, the UTC clock
      and the chat API. `requested` is the symbol whose quote was fetched, if any. */
  method Report(index: string, reply: QuoteReply, utcNow: DateTime, w: SendWorld)
    returns (requested: Option<string>, trace: seq<Action>, raised: bool)
    requires ValidDateTime(utcNow)
    ensures index !in IndexTable ==>
      requested == None && trace == [SendMessage(UnknownIndexText(index))] &&
      (raised <==> w.post.PostRaised?)
    ensures index in IndexTable ==> requested == Some(IndexTable[index].yahoo)
    ensures index in IndexTable && !Reportable(reply) ==> trace == [] && raised
    ensures index in IndexTable && Reportable(reply) ==>
      var q := YahooQuote(reply).value;
      var text := ReportText(IndexTable[index].title, q.price.hundredths, q.changep.hundredths,
                             LabelDate(index, UtcToIst(utcNow)));
      trace == [SendMessage(text)] + PinSteps(true, w.post) &&
      (raised <==> w.post.PostRaised? || (Pinning(true, w.post) && UsableId(w.post.messageId) && w.pinRaises))
  {
    if index !in IndexTable {
      trace, raised := Send(UnknownIndexText(index), false, w);
      requested := None;
      return;
    }
    var meta := IndexTable[index];
    requested := Some(meta.yahoo);
    var quote := YahooQuote(reply);
    if quote.None? {
      trace, raised := [], true;
      return;
    }
    var q := quote.value;
    var nowIst := UtcToIst(utcNow);
    var labelDate := nowIst.date;
    if index == "DOW" && nowIst.hour < 6 {
      labelDate := PrevDay(nowIst.date);
    }
    var decTwo := DecTwo(q.price);
    if !q.price.Num? || !q.changep.Num? {
      trace, raised := [], true;
      return;
    }
    IndexTableShape();
    trace, raised := Send(ReportText(meta.title, q.price.hundredths, q.changep.hundredths, labelDate), meta.pin, w);
  }
}

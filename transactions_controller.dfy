/** TransactionsController: checks the query of a transaction search in a fixed order,
    turns yyyy-MM-dd dates into start-of-day and end-of-day instants, builds the upstream
    query string and forwards the request with the stored bearer token.

    DateTime.TryParse is an input, tryParse, from text to ticks; HttpUtility.UrlEncode is
    an input, urlEncode. */
module TransactionsController {
  import opened Wrappers
  import opened Models
  import opened Http
  import Text
  import Calendar

  const ApiBase := "https://api.schwabapi.com/trader/v1/accounts/"
  const UnexpectedMessage := "An unexpected error occurred"

  /** The fifteen transaction types the actions accept. */
  const ValidTypes := ["TRADE", "RECEIVE_AND_DELIVER", "DIVIDEND_OR_INTEREST", "ACH_RECEIPT",
                       "ACH_DISBURSEMENT", "CASH_RECEIPT", "CASH_DISBURSEMENT", "ELECTRONIC_FUND",
                       "WIRE_OUT", "WIRE_IN", "JOURNAL", "MEMORANDUM", "MARGIN_CALL",
                       "MONEY_MARKET", "SMA_ADJUSTMENT"]

  /** A date as ParseAndConvertDate returns it: the instant in ticks and the text to forward. */
  datatype Converted = Converted(ticks: int, text: string)

  /** ParseAndConvertDate. A yyyy-MM-dd start becomes the first millisecond of its day and a
      yyyy-MM-dd end the last one, both printed in ISO 8601; the end of 9999-12-31 cannot be
      computed (AddDays overflows) and the catch makes it a failure. Other text that
      DateTime.TryParse accepts is forwarded unchanged. */
  function ParseAndConvertDate(input: string, isStartDate: bool, tryParse: string -> Option<int>): Option<Converted> {
    match Calendar.ParseYmd(input)
    case Some(d) =>
      if isStartDate then Some(Converted(Calendar.Ticks(d, 0), Calendar.Iso(d, 0)))
      else if d == Calendar.MaxDate then None
      else
        var ms := Calendar.MillisecondsPerDay - 1;
        Some(Converted(Calendar.Ticks(d, ms), Calendar.Iso(d, ms)))
    case None =>
      match tryParse(input)
      case Some(t) => Some(Converted(t, input))
      case None => None
  }

  /** A yyyy-MM-dd date is forwarded as the same date at 00:00:00.000Z when it starts the
      range and at 23:59:59.999Z when it ends it, the end instant one millisecond before the
      next day; any other accepted text is forwarded as it came. */
  lemma ConvertedDates(input: string, tryParse: string -> Option<int>)
    ensures Calendar.ParseYmd(input).Some? ==>
      var d := Calendar.ParseYmd(input).value;
      && ParseAndConvertDate(input, true, tryParse)
           == Some(Converted(Calendar.DayNumber(d) * Calendar.TicksPerDay, input + "T00:00:00.000Z"))
      && (d != Calendar.MaxDate ==>
            ParseAndConvertDate(input, false, tryParse)
              == Some(Converted((Calendar.DayNumber(d) + 1) * Calendar.TicksPerDay - Calendar.TicksPerMillisecond,
                                input + "T23:59:59.999Z")))
      && (d == Calendar.MaxDate ==> ParseAndConvertDate(input, false, tryParse).None?)
    ensures Calendar.ParseYmd(input).None? ==>
      forall b :: ParseAndConvertDate(input, b, tryParse) ==
        match tryParse(input) case Some(t) => Some(Converted(t, input)) case None => None
  {
    var r := Calendar.ParseYmd(input);
    if r.Some? {
      Calendar.FormatParse(input);
      Calendar.IsoStartOfDay(r.value);
      Calendar.IsoEndOfDay(r.value);
    }
  }

  /** The types check: the upper-cased text is one of the fifteen names. */
  predicate TypeAccepted(types: string) {
    Text.ToUpper(types) in ValidTypes
  }

  /** The types check ignores ASCII case. */
  lemma TypeCheckIgnoresCase(types: string)
    ensures TypeAccepted(Text.ToLower(types)) == TypeAccepted(types)
    ensures TypeAccepted(Text.ToUpper(types)) == TypeAccepted(types)
  {
    Text.ToUpperOfLower(types);
    Text.ToUpperIdempotent(types);
  }

  /** The default type is accepted in either case. */
  lemma DefaultTypeAccepted()
    ensures TypeAccepted("TRADE") && TypeAccepted("trade")
  {
    assert Text.ToUpper("trade") == "TRADE" == ValidTypes[0];
    assert Text.ToUpper("TRADE") == "TRADE";
  }

  /** A mixed-case name is accepted. */
  lemma MixedCaseTypeAccepted()
    ensures TypeAccepted("Wire_In")
  {
    assert Text.ToUpper("Wire_In") == "WIRE_IN" == ValidTypes[9];
  }

  /** The empty text is not a type. */
  lemma EmptyTypeRejected()
    ensures !TypeAccepted("")
  {
    assert forall i :: 0 <= i < |ValidTypes| ==> |ValidTypes[i]| > 0;
  }

  function BadRequest(message: string, detail: string): Response {
    Problem(400, message, [detail])
  }

  /** The query of GetTransactions. A missing symbol is None. */
  datatype TransactionsQuery = TransactionsQuery(
    accountNumber: string, startDate: string, endDate: string, symbol: Option<string>, types: string)

  /** The checks of GetTransactions before the token is fetched, in order: the first that
      fails gives its 400, and when all pass the converted start and end dates. */
  function Validate(q: TransactionsQuery, tryParse: string -> Option<int>): Result
  {
    if q.accountNumber == "" then
      Rejected(BadRequest("Account number is required", "accountNumber parameter cannot be empty"))
    else if q.startDate == "" || q.endDate == "" then
      Rejected(BadRequest("Start date and end date are required", "Both startDate and endDate parameters must be provided"))
    else match ParseAndConvertDate(q.startDate, true, tryParse)
      case None =>
        Rejected(BadRequest("Invalid start date format", "Start date must be in yyyy-MM-dd or ISO-8601 format"))
      case Some(start) =>
        match ParseAndConvertDate(q.endDate, false, tryParse)
        case None =>
          Rejected(BadRequest("Invalid end date format", "End date must be in yyyy-MM-dd or ISO-8601 format"))
        case Some(end) => CheckRangeAndType(start, end, q.types)
  }

  /** The checks after both dates are converted: the span, the order, then the type. */
  function CheckRangeAndType(start: Converted, end: Converted, types: string): (r: Result)
    ensures r.Rejected? ==> r.response.Status() == 400
    ensures r.Accepted? <==>
      start.ticks < end.ticks && end.ticks - start.ticks <= 365 * Calendar.TicksPerDay && TypeAccepted(types)
    ensures r.Accepted? ==> r == Accepted(start.text, end.text)
  {
    if end.ticks - start.ticks > 365 * Calendar.TicksPerDay then
      Rejected(BadRequest("Date range exceeds maximum", "Maximum date range is 1 year"))
    else if start.ticks >= end.ticks then
      Rejected(BadRequest("Invalid date range", "Start date must be before end date"))
    else if !TypeAccepted(types) then
      Rejected(BadRequest("Invalid transaction type", "Types must be one of: " + Text.Join(ValidTypes, ", ")))
    else Accepted(start.text, end.text)
  }

  datatype Result = Rejected(response: Response) | Accepted(startText: string, endText: string)

  /** Once both dates are converted and the type is accepted, the range checks decide:
      the query is accepted exactly when the end lies after the start by at most 365 days. */
  lemma RangeDecides(q: TransactionsQuery, tryParse: string -> Option<int>)
    requires q.accountNumber != "" && q.startDate != "" && q.endDate != "" && TypeAccepted(q.types)
    requires ParseAndConvertDate(q.startDate, true, tryParse).Some?
    requires ParseAndConvertDate(q.endDate, false, tryParse).Some?
    ensures var start := ParseAndConvertDate(q.startDate, true, tryParse).value;
      var end := ParseAndConvertDate(q.endDate, false, tryParse).value;
      Validate(q, tryParse).Accepted? <==>
        start.ticks < end.ticks && end.ticks - start.ticks <= 365 * Calendar.TicksPerDay
  {
  }

  /** From the first millisecond of day s to the last millisecond of day e is a positive
      span of at most 365 days exactly when e is s or one of the 364 days after it. */
  lemma DaySpan(s: int, e: int)
    ensures var startTicks := s * 864_000_000_000;
      var endTicks := (e + 1) * 864_000_000_000 - 10_000;
      startTicks < endTicks && endTicks - startTicks <= 365 * 864_000_000_000 <==> 0 <= e - s <= 364
  {
    var k := e - s;
    assert (e + 1) * 864_000_000_000 - 10_000 - s * 864_000_000_000 == (k + 1) * 864_000_000_000 - 10_000;
    if k >= 365 {
      assert (k + 1) * 864_000_000_000 >= 366 * 864_000_000_000;
    } else if k < 0 {
      assert (k + 1) * 864_000_000_000 <= 0;
    } else {
      assert (k + 1) * 864_000_000_000 <= 365 * 864_000_000_000;
      assert (k + 1) * 864_000_000_000 >= 864_000_000_000;
    }
  }

  /** The two range checks on a pair of yyyy-MM-dd dates pass exactly when the end date is
      the start date or one of the 364 days after it: a whole leap year of dates spans more
      than 365 days once the end date is taken to its last millisecond. */
  lemma YmdRangeAccepted(q: TransactionsQuery, tryParse: string -> Option<int>)
    requires q.accountNumber != "" && TypeAccepted(q.types)
    requires Calendar.ParseYmd(q.startDate).Some? && Calendar.ParseYmd(q.endDate).Some?
    requires Calendar.ParseYmd(q.endDate).value != Calendar.MaxDate
    ensures var gap := Calendar.DayNumber(Calendar.ParseYmd(q.endDate).value)
                       - Calendar.DayNumber(Calendar.ParseYmd(q.startDate).value);
      Validate(q, tryParse).Accepted? <==> 0 <= gap <= 364
  {
    ConvertedDates(q.startDate, tryParse);
    ConvertedDates(q.endDate, tryParse);
    RangeDecides(q, tryParse);
    DaySpan(Calendar.DayNumber(Calendar.ParseYmd(q.startDate).value),
            Calendar.DayNumber(Calendar.ParseYmd(q.endDate).value));
  }

  /** ParseYmd reads a well-formed date text as the date it names. */
  lemma ParsesAs(d: Calendar.Date, text: string)
    requires Calendar.ValidDate(d) && Calendar.FormatDate(d) == text
    ensures Calendar.ParseYmd(text) == Some(d)
  {
    Calendar.ParseFormat(d);
  }

  /** The first and the last day of 2023 are 364 days apart. */
  lemma CommonYearGap(start: string, end: string)
    requires start == "2023-01-01" && end == "2023-12-31"
    ensures Calendar.ParseYmd(start) == Some(Calendar.Date(2023, 1, 1))
    ensures Calendar.ParseYmd(end) == Some(Calendar.Date(2023, 12, 31))
    ensures Calendar.DayNumber(Calendar.Date(2023, 12, 31)) - Calendar.DayNumber(Calendar.Date(2023, 1, 1)) == 364
  {
    ParsesAs(Calendar.Date(2023, 1, 1), start);
    ParsesAs(Calendar.Date(2023, 12, 31), end);
  }

  /** The first and the last day of 2024 are 365 days apart. */
  lemma LeapYearGap(start: string, end: string)
    requires start == "2024-01-01" && end == "2024-12-31"
    ensures Calendar.ParseYmd(start) == Some(Calendar.Date(2024, 1, 1))
    ensures Calendar.ParseYmd(end) == Some(Calendar.Date(2024, 12, 31))
    ensures Calendar.DayNumber(Calendar.Date(2024, 12, 31)) - Calendar.DayNumber(Calendar.Date(2024, 1, 1)) == 365
  {
    ParsesAs(Calendar.Date(2024, 1, 1), start);
    ParsesAs(Calendar.Date(2024, 12, 31), end);
  }

  /** The calendar year 2023 can be asked for in one query. */
  lemma CommonYearAccepted(q: TransactionsQuery, tryParse: string -> Option<int>)
    requires q.accountNumber != "" && TypeAccepted(q.types)
    requires q.startDate == "2023-01-01" && q.endDate == "2023-12-31"
    ensures Validate(q, tryParse).Accepted?
  {
    CommonYearGap(q.startDate, q.endDate);
    YmdRangeAccepted(q, tryParse);
  }

  /** The leap year 2024 cannot: its last day is 365 days after its first. */
  lemma LeapYearRejected(q: TransactionsQuery, tryParse: string -> Option<int>)
    requires q.accountNumber != "" && TypeAccepted(q.types)
    requires q.startDate == "2024-01-01" && q.endDate == "2024-12-31"
    ensures Validate(q, tryParse).Rejected?
  {
    LeapYearGap(q.startDate, q.endDate);
    YmdRangeAccepted(q, tryParse);
  }

  /** The query string: startDate, endDate and types, then symbol when one is given, joined
      with '&'. The types text goes out as the caller wrote it. */
  function QueryString(startText: string, endText: string, q: TransactionsQuery, urlEncode: string -> string): string {
    Text.Join(QueryParameters(startText, endText, q, urlEncode), "&")
  }

  function QueryParameters(startText: string, endText: string, q: TransactionsQuery, urlEncode: string -> string): seq<string> {
    ["startDate=" + urlEncode(startText), "endDate=" + urlEncode(endText), "types=" + urlEncode(q.types)]
    + (if Text.IsNullOrEmpty(q.symbol) then [] else ["symbol=" + urlEncode(q.symbol.value)])
  }

  /** With an encoder that escapes '&' (UrlEncode does), the query splits back into its
      parameters in the order startDate, endDate, types and then symbol, present only when
      non-empty. */
  lemma QueryOrder(startText: string, endText: string, q: TransactionsQuery, urlEncode: string -> string)
    requires forall s :: '&' !in urlEncode(s)
    ensures var ps := Text.Split(QueryString(startText, endText, q, urlEncode), '&');
      && 3 <= |ps| <= 4
      && ps[..3] == ["startDate=" + urlEncode(startText), "endDate=" + urlEncode(endText), "types=" + urlEncode(q.types)]
      && (|ps| == 4 <==> !Text.IsNullOrEmpty(q.symbol))
      && (|ps| == 4 ==> ps[3] == "symbol=" + urlEncode(q.symbol.value))
  {
    var ps := QueryParameters(startText, endText, q, urlEncode);
    forall i | 0 <= i < |ps|
      ensures '&' !in ps[i]
    {
      var p :=
        if i == 0 then ("startDate=", startText)
        else if i == 1 then ("endDate=", endText)
        else if i == 2 then ("types=", q.types)
        else ("symbol=", q.symbol.value);
      assert ps[i] == p.0 + urlEncode(p.1);
      assert '&' !in urlEncode(p.1);
    }
    Text.SplitJoin(ps, '&');
  }

  /** GetTransactions: the checks, then the request with the converted dates. */
  function GetTransactions(q: TransactionsQuery, tryParse: string -> Option<int>, urlEncode: string -> string,
                           token: Call<Option<OAuthToken>>, send: ApiRequest -> Call<HttpReply>): Exchange
  {
    match Validate(q, tryParse)
    case Rejected(response) => Exchange(response, false, None)
    case Accepted(startText, endText) =>
      var url := ApiBase + urlEncode(q.accountNumber) + "/transactions?"
                 + QueryString(startText, endText, q, urlEncode);
      Forward(token, url, send, "Resource not found", true, UnexpectedMessage)
  }

  /** Every rejection is a 400. */
  lemma RejectionIsBadRequest(q: TransactionsQuery, tryParse: string -> Option<int>)
    ensures Validate(q, tryParse).Rejected? ==> Validate(q, tryParse).response.Status() == 400
  {
    if q.accountNumber != "" && q.startDate != "" && q.endDate != "" {
      var start := ParseAndConvertDate(q.startDate, true, tryParse);
      var end := ParseAndConvertDate(q.endDate, false, tryParse);
      if start.Some? && end.Some? {
        assert Validate(q, tryParse) == CheckRangeAndType(start.value, end.value, q.types);
      }
    }
  }

  /** An accepted query has an account number, an accepted type and two dates that convert,
      whose texts it carries. */
  lemma AcceptedQuery(q: TransactionsQuery, tryParse: string -> Option<int>)
    ensures Validate(q, tryParse).Accepted? ==>
      && q.accountNumber != "" && TypeAccepted(q.types)
      && ParseAndConvertDate(q.startDate, true, tryParse).Some?
      && ParseAndConvertDate(q.endDate, false, tryParse).Some?
      && Validate(q, tryParse).startText == ParseAndConvertDate(q.startDate, true, tryParse).value.text
      && Validate(q, tryParse).endText == ParseAndConvertDate(q.endDate, false, tryParse).value.text
  {
    if q.accountNumber != "" && q.startDate != "" && q.endDate != "" {
      var start := ParseAndConvertDate(q.startDate, true, tryParse);
      var end := ParseAndConvertDate(q.endDate, false, tryParse);
      if start.Some? && end.Some? {
        assert Validate(q, tryParse) == CheckRangeAndType(start.value, end.value, q.types);
      }
    }
  }

  /** A query failing a check is answered with a 400 and neither a token nor the upstream
      API is consulted; otherwise the checks all pass and the URL carries the account and the
      converted dates, and the passthrough rules of the shared tail apply. */
  lemma GetTransactionsSpec(q: TransactionsQuery, tryParse: string -> Option<int>, urlEncode: string -> string,
                            token: Call<Option<OAuthToken>>, send: ApiRequest -> Call<HttpReply>)
    ensures var x := GetTransactions(q, tryParse, urlEncode, token, send);
      && (Validate(q, tryParse).Rejected? ==>
            !x.fetchedToken && x.sent.None? && x.response.Status() == 400)
      && (Validate(q, tryParse).Accepted? ==>
            && x.fetchedToken
            && q.accountNumber != "" && TypeAccepted(q.types)
            && ParseAndConvertDate(q.startDate, true, tryParse).Some?
            && ParseAndConvertDate(q.endDate, false, tryParse).Some?
            && var v := Validate(q, tryParse);
               x == Forward(token, ApiBase + urlEncode(q.accountNumber) + "/transactions?"
                                   + QueryString(v.startText, v.endText, q, urlEncode),
                            send, "Resource not found", true, UnexpectedMessage))
  {
    RejectionIsBadRequest(q, tryParse);
    AcceptedQuery(q, tryParse);
    var v := Validate(q, tryParse);
    if v.Accepted? {
      var url := ApiBase + urlEncode(q.accountNumber) + "/transactions?"
                 + QueryString(v.startText, v.endText, q, urlEncode);
      ForwardSpec(token, url, send, "Resource not found", true, UnexpectedMessage);
    }
  }

  /** The check order: an empty account number is reported first, empty dates next, then a
      bad start date before a bad end date. */
  lemma ValidationOrder(q: TransactionsQuery, tryParse: string -> Option<int>)
    ensures q.accountNumber == "" ==>
      Validate(q, tryParse).response.message == "Account number is required"
    ensures q.accountNumber != "" && q.startDate == "" ==>
      Validate(q, tryParse).response.message == "Start date and end date are required"
    ensures q.accountNumber != "" && q.startDate != "" && q.endDate != ""
            && ParseAndConvertDate(q.startDate, true, tryParse).None? ==>
      Validate(q, tryParse).response.message == "Invalid start date format"
    ensures q.accountNumber != "" && q.startDate != "" && q.endDate != ""
            && ParseAndConvertDate(q.startDate, true, tryParse).Some?
            && ParseAndConvertDate(q.endDate, false, tryParse).None? ==>
      Validate(q, tryParse).response.message == "Invalid end date format"
  {
  }

  /** GetTransaction: both path values must be non-empty, then the request for one transaction. */
  function GetTransaction(accountNumber: string, transactionId: string, urlEncode: string -> string,
                          token: Call<Option<OAuthToken>>, send: ApiRequest -> Call<HttpReply>): Exchange
  {
    if accountNumber == "" then
      Exchange(BadRequest("Account number is required", "accountNumber parameter cannot be empty"), false, None)
    else if transactionId == "" then
      Exchange(BadRequest("Transaction ID is required", "transactionId parameter cannot be empty"), false, None)
    else
      var url := ApiBase + urlEncode(accountNumber) + "/transactions/" + urlEncode(transactionId);
      Forward(token, url, send, "Transaction not found", true, "An unexpected error occurred")
  }

  /** Empty path values are turned away with a 400 before the token is fetched; a 404 from
      upstream is reported as "Transaction not found" with status 404. */
  lemma GetTransactionSpec(accountNumber: string, transactionId: string, urlEncode: string -> string,
                           token: Call<Option<OAuthToken>>, send: ApiRequest -> Call<HttpReply>)
    ensures var x := GetTransaction(accountNumber, transactionId, urlEncode, token, send);
      && (accountNumber == "" || transactionId == "" ==>
            !x.fetchedToken && x.sent.None? && x.response.Status() == 400)
      && (accountNumber != "" && transactionId != "" ==>
            && x.fetchedToken
            && (x.sent.Some? ==>
                  x.sent.value.url == ApiBase + urlEncode(accountNumber) + "/transactions/" + urlEncode(transactionId))
            && (x.sent.Some? && send(x.sent.value) == Returned(HttpReply(404, "")) ==>
                  x.response == Problem(404, "Transaction not found", [""])))
  {
  }
}

# SchwabApi backend, modelled in Dafny

This project models the ASP.NET backend of SchwabApi, a multi-tenant front end to the
Schwab brokerage API. The model covers:

- **Token store** (`TokenService`). An append-only table of OAuth token records. "Latest"
  is the record with the greatest creation time. The service saves token responses, returns
  a valid token, and runs the refresh-token grant of section 6 of RFC 6749 with HTTP Basic
  client authentication (section 2.3.1 of RFC 6749, section 2 of RFC 7617).
- **Background refresher** (`TokenRefreshBackgroundService`). A class holding the failure
  counter. Its tick decides whether to refresh, whether to raise a critical alert, and how
  long to sleep afterwards.
- **Token endpoints** (`TokenController`). The status, health and manual-refresh answers,
  computed from the results of token service calls.
- **Tenants** (`TenantService`, `TenantController`). Lookups that lower-case the subdomain
  first, the subdomain validator, and create, update and delete over the tenant table. The
  delete cascades to the tenant's users.
- **Accounts** (`AuthService`, `UserAuthController`). Registration and login rules over the
  tenant and user tables. The tenant is taken from the first label of the host name.
- **Pass-through controllers** (`TransactionsController`, `AccountController`). The
  validation order, the conversion of `yyyy-MM-dd` dates to instants, the query string, and
  the mapping of upstream statuses to responses.
- **OAuth front door** (`OAuthController`). The authorization URL of the
  authorization-code grant (section 4.1.1 of RFC 6749), and the callback that exchanges the
  code (section 4.1.3 of RFC 6749).

The library behaviour these rules depend on is modelled in its own modules:

- `Utf8`: UTF-8 encoding and decoding.
- `Base64`: base 64, section 4 of RFC 4648.
- `PercentEncoding`: `Uri.EscapeDataString` and `Uri.UnescapeDataString`, sections 2.1 and
  2.3 of RFC 3986.
- `Calendar`: the exact `yyyy-MM-dd` format and the tick arithmetic of `DateTime`.
- `Text`: `String.Split`, `String.Join`, and ASCII `ToLower`/`ToUpper`.
- `Subdomain`: the subdomain pattern, run as an automaton.

Time is an integer parameter `now`. Token records and the refresher count seconds; the
transaction dates count ticks of 100 ns. The database is the class `Data.AppDb`, whose three
tables are sequences in insertion order. Its `Valid()` invariant says:

- keys are unique;
- every user's tenant exists;
- token ids follow the identity column.

Everything outside the process is an input function:

- HTTP exchanges (`send`);
- JSON deserialization (`parse`);
- `DateTime.TryParse` (`tryParse`);
- `HttpUtility.UrlEncode` (`urlEncode`);
- BCrypt (`hash`, `verify`);
- the bodiless `ITokenService` queries (their results are `Call` values).

## Model

| member | source | states |
|---|---|---|
| Models.FullNameParts | backend/Entities/User.cs:22 | The full name is the first name, one space and the last name, in that order. |
| Models.BasicCredentialDecodes | backend/Controllers/Auth/OAuthController.cs:155-156 | The Basic credential decodes (base 64, then UTF-8) to exactly `id:secret`. |
| Data.AppDb.constructor | backend/Data/AppDbContext.cs:15-51 | A new database has empty tables and satisfies the key and foreign-key invariant. |
| Data.AppDb.NewGuid | backend/Controllers/TenantController.cs:65 | A fresh key: above every stored tenant and user key, never handed out again, and no table changes. |
| Text.ToLowerAt | backend/Services/TenantService.cs:21 | Lower-casing keeps the length and maps each character on its own. |
| Text.ToLowerIdempotent | backend/Services/TenantService.cs:42 | Lower-casing an already lower-cased subdomain changes nothing. |
| Text.ToLowerOfLower | backend/Services/TenantService.cs:42 | A text without upper-case letters is its own lower-case form. |
| Text.ToUpperOfLower | backend/Controllers/TransactionsController.cs:86 | Upper-casing after lower-casing equals upper-casing alone. |
| Text.ToUpperIdempotent | backend/Controllers/TransactionsController.cs:86 | Upper-casing twice equals upper-casing once. |
| Text.Split | backend/Controllers/Auth/UserAuthController.cs:150 | `String.Split` always yields at least one piece. |
| Text.IndexOf | backend/Controllers/Auth/UserAuthController.cs:150-156 | The first occurrence of the character, or the length when it does not occur. |
| Text.JoinSplit | backend/Controllers/Auth/UserAuthController.cs:150 | Joining the pieces of a split with the separator gives the input back. |
| Text.SplitFirst | backend/Controllers/Auth/UserAuthController.cs:150-156 | There is a second piece exactly when the separator occurs, and the first piece is the text before it. |
| Text.SplitNoSeparator | backend/Controllers/Auth/UserAuthController.cs:150 | A text without the separator splits into itself. |
| Text.SplitAfterHead | backend/Controllers/Auth/UserAuthController.cs:150 | A head without the separator splits off as the first piece. |
| Text.SplitJoin | backend/Controllers/TransactionsController.cs:115 | Splitting a join of pieces that contain no separator gives the pieces back. |
| Utf8.EncodeChar | backend/Controllers/Auth/OAuthController.cs:156 | A character encodes to between one and four bytes. |
| Utf8.DecodeFirstTwoBytes | backend/Controllers/Auth/OAuthController.cs:156 | A character up to U+07FF is decoded from its two bytes, whatever follows them. |
| Utf8.DecodeFirstThreeBytes | backend/Controllers/Auth/OAuthController.cs:156 | A character from U+0800 to U+FFFF is decoded from its three bytes. |
| Utf8.DecodeFirstFourBytes | backend/Controllers/Auth/OAuthController.cs:156 | A character from U+10000 up is decoded from its four bytes. |
| Utf8.DecodeFirstEncodeChar | backend/Controllers/Auth/OAuthController.cs:156 | The first character of an encoding is recovered, and so is its byte length. |
| Utf8.DecodeEncode | backend/Controllers/Auth/OAuthController.cs:156 | Strict decoding inverts encoding for every string. |
| Utf8.EncodeAppend | backend/Controllers/Auth/OAuthController.cs:156 | Encoding distributes over concatenation. |
| Utf8.EncodeAscii | backend/Controllers/Auth/OAuthController.cs:156 | ASCII text encodes to one byte per character, each byte equal to the character's code. |
| Base64.ValueOfDigit | backend/Controllers/Auth/OAuthController.cs:156 | Each alphabet character decodes back to its six-bit value. |
| Base64.EncodeGroup | backend/Controllers/Auth/OAuthController.cs:156 | Every group of one to three bytes becomes four characters. |
| Base64.Encode | backend/Services/TokenService.cs:57 | The encoding has four characters per started group of three bytes. |
| Base64.EncodeAlphabet | backend/Services/TokenService.cs:57 | An encoding contains only alphabet characters and `=`. |
| Base64.DecodeEncodeOne | backend/Services/TokenService.cs:57 | A one-byte final group (two characters and `==`) decodes back to its byte. |
| Base64.DecodeEncodeTwo | backend/Services/TokenService.cs:57 | A two-byte final group (three characters and `=`) decodes back to its bytes. |
| Base64.DecodeEncodeThree | backend/Services/TokenService.cs:57 | A full group decodes back, whether or not it is the last. |
| Base64.DecodeEncodeGroup | backend/Services/TokenService.cs:57 | A group decodes to the bytes it came from; a short group only as the last one. |
| Base64.DecodeEncode | backend/Services/TokenService.cs:57 | Decoding inverts encoding for every byte string. |
| PercentEncoding.EscapeBytesAlphabet | backend/Controllers/Auth/OAuthController.cs:56-58 | Escaped output contains only unreserved characters and `%`. |
| PercentEncoding.PercentDecodeEscapeBytes | backend/Controllers/Auth/OAuthController.cs:56-58 | The escapes spell exactly the bytes that were escaped. |
| PercentEncoding.UnescapeEscape | backend/Controllers/Auth/OAuthController.cs:152 | `UnescapeDataString` undoes `EscapeDataString` for every string. |
| PercentEncoding.PercentDecodeNoEscapes | backend/Controllers/Auth/OAuthController.cs:152 | A text without `%` stands for its own UTF-8 bytes. |
| PercentEncoding.UnescapeNoEscapes | backend/Controllers/Auth/OAuthController.cs:152 | Unescaping leaves a text without `%` unchanged. |
| PercentEncoding.EscapeUnreserved | backend/Controllers/Auth/OAuthController.cs:52-53 | Unreserved text, such as the keys `client_id` and `redirect_uri`, is its own escape. |
| PercentEncoding.EscapeHasNoDelimiters | backend/Controllers/Auth/OAuthController.cs:56-60 | An escaped value contains no `&`, `=` or `?`. |
| Calendar.Digits | backend/Controllers/TransactionsController.cs:268 | A zero-padded rendering has exactly the requested width and only digits. |
| Calendar.ValueOfDigits | backend/Controllers/TransactionsController.cs:268 | Reading back a rendering gives the number, when it fits the width. |
| Calendar.DigitsValueOf | backend/Controllers/TransactionsController.cs:253 | Rendering the value of a digit string at its own width gives the string back. |
| Calendar.ParseYmd | backend/Controllers/TransactionsController.cs:253 | Whatever the exact `yyyy-MM-dd` parse accepts is a date of the calendar in years 1 to 9999. |
| Calendar.FormatDate | backend/Controllers/TransactionsController.cs:268 | `yyyy-MM-dd` is ten characters long. |
| Calendar.ParseFormat | backend/Controllers/TransactionsController.cs:253-268 | Parsing the printed date gives the date back. |
| Calendar.FormatParse | backend/Controllers/TransactionsController.cs:253-268 | Printing a parsed date gives exactly the parsed text. |
| Calendar.DaysBeforeNextMonth | backend/Controllers/TransactionsController.cs:264 | The month table agrees with the month lengths. |
| Calendar.DaysBeforeNextYear | backend/Controllers/TransactionsController.cs:264 | A year has 366 days exactly when it is a leap year. |
| Calendar.NextDayNumber | backend/Controllers/TransactionsController.cs:264 | `AddDays(1)` below the maximum date gives a valid date whose day number is one higher. |
| Calendar.DaysBeforeYearMonotone | backend/Controllers/TransactionsController.cs:264 | Day numbers grow with the year. |
| Calendar.DayNumberRange | backend/Controllers/TransactionsController.cs:264 | Every date lies within DateTime's range, and only 9999-12-31 has the last day number. |
| Calendar.IsoStartOfDay | backend/Controllers/TransactionsController.cs:259-268 | The start of a day prints as the date followed by `T00:00:00.000Z`. |
| Calendar.IsoEndOfDay | backend/Controllers/TransactionsController.cs:264-268 | The last millisecond prints as the date followed by `T23:59:59.999Z`. |
| Subdomain.RunFacts | backend/Controllers/TenantController.cs:168 | The automaton survives exactly the texts in `[a-z0-9-]` that do not start with `-`, and accepts those that also do not end with `-`. |
| Subdomain.DeadStays | backend/Controllers/TenantController.cs:168 | Once the match fails, it stays failed. |
| Subdomain.MatchesLabelIff | backend/Controllers/TenantController.cs:168 | The pattern matches exactly the non-empty `[a-z0-9-]` texts that neither start nor end with `-`. |
| Subdomain.IsValidSubdomainIff | backend/Controllers/TenantController.cs:163-171 | Valid exactly when the text is non-empty, in `[a-z0-9-]`, without a leading or trailing `-`, and 3 to 50 long (both directions). |
| Subdomain.ValidIsLowerCase | backend/Controllers/TenantController.cs:165-168 | A valid subdomain has no upper-case letter. |
| Subdomain.AsWrittenIff | backend/Controllers/TenantController.cs:167-170 | The code as written accepts the intended subdomains plus exactly those followed by one line feed. |
| Subdomain.AsWrittenAcceptsNewline | backend/Controllers/TenantController.cs:168 | `"ab\n"` passes the check as written but fails the intended one. |
| TenantService.IndexOfSubdomain | backend/Services/TenantService.cs:20-21 | The first tenant with that subdomain, or the table's length when there is none. |
| TenantService.IndexOfId | backend/Services/TenantService.cs:26-27 | The first tenant with that key, or the table's length when there is none. |
| TenantService.GetTenantBySubdomainSpec | backend/Services/TenantService.cs:18-22 | The lookup returns a stored tenant whose subdomain is the lower-cased argument; it returns none exactly when the subdomain is available. |
| TenantService.GetTenantByIdSpec | backend/Services/TenantService.cs:24-28 | The lookup returns the stored tenant with that key; it returns none exactly when there is none. |
| TenantService.LookupIgnoresCase | backend/Services/TenantService.cs:18-35 | A subdomain and its lower-case form get the same lookup and availability answers. |
| TenantService.CreatedIsTaken | backend/Services/TenantService.cs:30-46 | After a tenant holding the lower-cased subdomain is stored, the subdomain is unavailable and its lookup succeeds. |
| TenantService.AppendTenantValid | backend/Services/TenantService.cs:46 | Appending a tenant with a fresh key keeps keys distinct and the foreign key intact. |
| TenantService.CreateTenant | backend/Services/TenantService.cs:37-51 | Appends exactly one tenant: fresh key, the given name, the lower-cased subdomain, time now. There is no availability check, and the other tables are untouched. |
| TenantController.RevisedChanges | backend/Controllers/TenantController.cs:87-107 | An update changes the name only for a non-empty name, and the subdomain exactly for a non-empty different one. It never changes the key or the creation time. |
| TenantController.UsersOutside | backend/Data/AppDbContext.cs:47-50 | The cascade never adds users. |
| TenantController.UsersOutsideSpec | backend/Data/AppDbContext.cs:47-50 | The cascade keeps exactly the users of other tenants. |
| TenantController.RemoveAtSpec | backend/Controllers/TenantController.cs:138 | Removal drops exactly the tenant with that key and shortens the table by one. |
| TenantController.ReplaceKeepsValid | backend/Controllers/TenantController.cs:87-111 | Updating a tenant in place keeps the table invariant. |
| TenantController.RemoveAtKeepsKeys | backend/Controllers/TenantController.cs:138-139 | Removal keeps the tenant keys distinct and below the next fresh key. |
| TenantController.CascadeKeepsForeignKey | backend/Data/AppDbContext.cs:47-50 | After the cascade, every remaining user still has a tenant. |
| TenantController.CascadeKeepsBelow | backend/Data/AppDbContext.cs:47-50 | The cascade keeps user keys below the next fresh key. |
| TenantController.UsersOutsideDistinct | backend/Data/AppDbContext.cs:47-50 | The cascade keeps user keys distinct. |
| TenantController.CreateTenant | backend/Controllers/TenantController.cs:48-75 | A subdomain failing the check as written (`IsValidSubdomainAsWritten`, which lets one final line feed through) is a 400 before the duplicate check; an exact duplicate is a 409; in both cases the table is unchanged. Otherwise exactly one tenant with a fresh key, the given name and subdomain is appended. |
| TenantController.UpdateTenant | backend/Controllers/TenantController.cs:78-126 | An unknown key is a 404. A new subdomain failing the check as written, or taken, is a 400 or 409 and stores nothing, not even the name change. Otherwise a 204, and only that tenant is revised. |
| TenantController.DeleteTenant | backend/Controllers/TenantController.cs:129-142 | An unknown key is a 404 with no change. Otherwise a 204 that removes exactly that tenant and, by the cascade, exactly its users. |
| AuthService.AppendUserValid | backend/Services/AuthService.cs:102-103 | Appending a user with a fresh key and a stored tenant keeps the tables valid. |
| AuthService.Register | backend/Services/AuthService.cs:24-136 | The checks run in order, and each failure before tenant creation changes nothing. The email must be unique across all tenants. A new tenant stays stored even when the email check then fails. Success appends exactly one user, with the resolved tenant and `hash(password)`. |
| AuthService.IndexOfLogin | backend/Services/AuthService.cs:143-145 | The first user with that email in that tenant, or none. |
| AuthService.LoginSuccessSound | backend/Services/AuthService.cs:143-186 | A successful login names a stored user with that email, in that tenant, whose password verifies. |
| AuthService.LoginFailuresIdentical | backend/Services/AuthService.cs:147-164 | An unknown email and a wrong password give the identical response. |
| AuthService.LoginAfterRegister | backend/Services/AuthService.cs:92-186 | A user registered with a fresh email logs in to its tenant with the same password. |
| AuthService.GetUserByIdSpec | backend/Services/AuthService.cs:199-204 | The lookup returns the stored user with that key; it returns none exactly when there is none. |
| UserAuthController.ExtractSubdomainSpec | backend/Controllers/Auth/UserAuthController.cs:147-160 | A subdomain is found exactly when the host contains `.`; it is the text before the first `.`. |
| UserAuthController.ExtractSubdomainOfHost | backend/Controllers/Auth/UserAuthController.cs:152-156 | `label.domain` yields `label`, as `demo.localhost` yields `demo`. |
| UserAuthController.RegisterTenantContextSpec | backend/Controllers/Auth/UserAuthController.cs:32-43 | A new tenant gets no context. Otherwise the context is the stored tenant named by the lower-cased first label of the host, and it is absent exactly when no tenant has that subdomain. |
| UserAuthController.Register | backend/Controllers/Auth/UserAuthController.cs:26-54 | The answer is 200 exactly when registration succeeds and 400 otherwise. Success appends exactly one user with the hashed password. |
| UserAuthController.LoginRouting | backend/Controllers/Auth/UserAuthController.cs:56-95 | A host without a subdomain gives "No tenant found…"; an unknown tenant gives "Tenant not found"; no user is consulted in either case. Otherwise the answer is the tenant's login, 200 exactly on success. |
| UserAuthController.LoginThroughSubdomainAfterRegister | backend/Controllers/Auth/UserAuthController.cs:56-95 | A newly registered user logs in through a host whose first label names its tenant. |
| UserAuthController.GetUserSpec | backend/Controllers/Auth/UserAuthController.cs:105-135 | An unknown id is a 404. When every user has a tenant, a known id is a 200 carrying that user and its tenant, and the null-tenant 500 cannot occur. |
| TokenService.LatestIndex | backend/Services/TokenService.cs:38-40 | The chosen record has the greatest creation time; among ties it is the last appended. |
| TokenService.Latest | backend/Services/TokenService.cs:38-40 | None exactly on an empty table; otherwise a stored record that no other record postdates. |
| TokenService.SavedAppendsOne | backend/Services/TokenService.cs:22-34 | Saving appends exactly one record with expiry `now + expires_in` and created at now. Existing records are unchanged, and null tokens are stored as `""`. |
| TokenService.SavedNumbered | backend/Services/TokenService.cs:32-33 | Saving keeps the identity column numbered. |
| TokenService.LatestAfterSave | backend/Services/TokenService.cs:79-82 | A record saved no earlier than every stored one becomes the latest. |
| TokenService.RefreshEmptyStore | backend/Services/TokenService.cs:54-55 | On an empty table, refresh returns none and posts nothing. |
| TokenService.RefreshSendsLatest | backend/Services/TokenService.cs:57-66 | A request is posted exactly when the table is non-empty. It goes to the fixed endpoint with the Basic credential and `grant_type=refresh_token`, carrying the latest record's refresh token or `""`. |
| TokenService.RefreshFailureUnchanged | backend/Services/TokenService.cs:68-77 | Unless a token is returned, the table is unchanged. |
| TokenService.RefreshRejected | backend/Services/TokenService.cs:69 | A non-success status returns none and changes nothing. |
| TokenService.RefreshSuccess | backend/Services/TokenService.cs:79-82 | A successful refresh appends exactly one record and returns it as the new latest. |
| TokenService.RefreshWithoutRefreshToken | backend/Services/TokenService.cs:27-82 | A response without `refresh_token` is stored as `""`, and the next refresh posts `""`. |
| TokenService.GetValidReturnsUnexpired | backend/Services/TokenService.cs:42-45 | A latest record whose expiry is not before now (one expiring exactly now included) is returned with no exchange and no change. |
| TokenService.GetValidAfterSave | backend/Services/TokenService.cs:22-46 | Right after a save with a non-negative lifetime, the saved record is returned with no exchange. |
| TokenService.GetValidRefreshesExpired | backend/Services/TokenService.cs:42-43 | An expired latest record leads to the refresh grant. |
| TokenService.GetValidEmptyStore | backend/Services/TokenService.cs:42-55 | On an empty table, returns none and posts nothing. |
| TokenService.SaveToken | backend/Services/TokenService.cs:22-34 | The table becomes the old table plus the one new record; the other tables are untouched. |
| TokenService.RefreshToken | backend/Services/TokenService.cs:48-83 | The method's outcome, posted request and new table are those of the refresh specification. |
| TokenService.GetValidToken | backend/Services/TokenService.cs:36-46 | The method's outcome, posted request and new table are those of the valid-token specification. |
| TokenRefresh.Trace | backend/Services/TokenRefreshBackgroundService.cs:27-40 | One outcome per tick. |
| TokenRefresh.NoTokenResets | backend/Services/TokenRefreshBackgroundService.cs:52-58 | No current token: the counter resets and nothing is refreshed. |
| TokenRefresh.RestartAlerts | backend/Services/TokenRefreshBackgroundService.cs:61-68 | A needed restart alerts and resets the counter without refreshing; it is checked before expiry. |
| TokenRefresh.RefreshAttemptedIff | backend/Services/TokenRefreshBackgroundService.cs:70-77 | A refresh is attempted exactly when a token exists, no restart is needed, and the time left is at most the threshold (the boundary included). |
| TokenRefresh.RefreshSuccessResets | backend/Services/TokenRefreshBackgroundService.cs:78-82 | A refresh that returns a token resets the counter. |
| TokenRefresh.RefreshFailureCounts | backend/Services/TokenRefreshBackgroundService.cs:83-108 | A failed or throwing refresh adds exactly one; it alerts exactly when the new count reaches the maximum. |
| TokenRefresh.HealthyResets | backend/Services/TokenRefreshBackgroundService.cs:94-98 | A token not near expiry resets the counter without refreshing. |
| TokenRefresh.QueryExceptionCounts | backend/Services/TokenRefreshBackgroundService.cs:100-108 | An exception from a query adds one, alerts at the maximum, and does not escape the tick. |
| TokenRefresh.CounterSteps | backend/Services/TokenRefreshBackgroundService.cs:45-110 | After a tick the counter is 0, unchanged, or one more. Only a scope failure escapes, and that tick leaves the counter alone. |
| TokenRefresh.CriticalIff | backend/Services/TokenRefreshBackgroundService.cs:61-108 | A tick alerts exactly for a counted failure that reaches the maximum, or for a needed restart. |
| TokenRefresh.FailingRun | backend/Services/TokenRefreshBackgroundService.cs:83-91 | Over consecutive failing refreshes the counter climbs by one per tick, and tick i alerts exactly when f+i+1 reaches the maximum. |
| TokenRefresh.AlertOnThirdFailure | backend/Models/TokenRefreshSettings.cs:8-23 | With the defaults, the first alert comes on the third straight failure, and the fourth alerts again. |
| TokenRefresh.RefreshService.constructor | backend/Services/TokenRefreshBackgroundService.cs:11-21 | The counter starts at 0. |
| TokenRefresh.RefreshService.CheckAndRefreshTokens | backend/Services/TokenRefreshBackgroundService.cs:45-110 | The counter field and the tick's effects are those of the tick specification. |
| TokenRefresh.RefreshService.ExecuteAsync | backend/Services/TokenRefreshBackgroundService.cs:23-43 | The loop's outcomes follow the trace specification. Each sleep is the check interval, or the error delay exactly when an exception escaped the tick. |
| TokenController.DaysRemainingBounds | backend/Controllers/TokenController.cs:53 | The days remaining are in [0, 7] and are 0 when a restart is needed. They are 7 for an unknown age and 0 from seven days of age on. |
| TokenController.NextStepPriority | backend/Controllers/TokenController.cs:55-57 | Restart beats valid, and valid beats automatic refresh (each an if-and-only-if). |
| TokenController.NoTokenIgnoresQueries | backend/Controllers/TokenController.cs:24-33 | No token: a 200 with HasToken false, and no other query affects the answer. |
| TokenController.StatusReportsToken | backend/Controllers/TokenController.cs:35-58 | With a token, the status reports its id, its expiry and the query answers; a needed restart gives 0 days and the restart step. |
| TokenController.InvalidIsExpired | backend/Controllers/TokenController.cs:104-107 | An invalid token is "Expired", whatever time remains. |
| TokenController.ValidHealth | backend/Controllers/TokenController.cs:108-115 | A valid token is "Expiring Soon" exactly when at most 30 minutes remain. Otherwise it is "Healthy", including when the time is unknown. |
| TokenController.ManualRefreshOnStore | backend/Controllers/TokenController.cs:67-93 | No stored token is a 400. A success reports the new record's id and an expiry of `now + expires_in`. |
| TransactionsController.ConvertedDates | backend/Controllers/TransactionsController.cs:248-284 | A `yyyy-MM-dd` start becomes `T00:00:00.000Z`. An end becomes `T23:59:59.999Z`, one millisecond before the next day; 9999-12-31 fails. Other text is passed to `TryParse` and forwarded unchanged. |
| TransactionsController.TypeCheckIgnoresCase | backend/Controllers/TransactionsController.cs:86 | The type check gives the same answer for a text and its lower- or upper-case form. |
| TransactionsController.DefaultTypeAccepted | backend/Controllers/TransactionsController.cs:81-86 | `TRADE` and `trade` are accepted. |
| TransactionsController.MixedCaseTypeAccepted | backend/Controllers/TransactionsController.cs:81-86 | `Wire_In` is accepted. |
| TransactionsController.EmptyTypeRejected | backend/Controllers/TransactionsController.cs:81-89 | The empty type is rejected. |
| TransactionsController.CheckRangeAndType | backend/Controllers/TransactionsController.cs:69-89 | Accepted exactly when start < end, the span is at most 365 days, and the type is valid; otherwise a 400. The converted texts are carried. |
| TransactionsController.RangeDecides | backend/Controllers/TransactionsController.cs:70-78 | With the earlier checks passed, the query is accepted exactly when the end is after the start by at most 365 days. |
| TransactionsController.DaySpan | backend/Controllers/TransactionsController.cs:70-78 | From the start of day s to the end of day e is accepted exactly when 0 <= e − s <= 364. |
| TransactionsController.YmdRangeAccepted | backend/Controllers/TransactionsController.cs:53-78 | Two `yyyy-MM-dd` dates are accepted exactly when the end date is the start date or up to 364 days after it. |
| TransactionsController.ParsesAs | backend/Controllers/TransactionsController.cs:253 | A printed valid date parses as itself. |
| TransactionsController.CommonYearGap | backend/Controllers/TransactionsController.cs:253 | 2023-01-01 and 2023-12-31 parse, and are 364 days apart. |
| TransactionsController.LeapYearGap | backend/Controllers/TransactionsController.cs:253 | 2024-01-01 and 2024-12-31 parse, and are 365 days apart. |
| TransactionsController.CommonYearAccepted | backend/Controllers/TransactionsController.cs:70-78 | The calendar year 2023 fits in one query. |
| TransactionsController.LeapYearRejected | backend/Controllers/TransactionsController.cs:70-73 | The leap year 2024 does not fit in one query. |
| TransactionsController.QueryOrder | backend/Controllers/TransactionsController.cs:103-115 | The query splits into startDate, endDate, types (as the caller wrote it), then symbol only when non-empty. |
| TransactionsController.RejectionIsBadRequest | backend/Controllers/TransactionsController.cs:42-89 | Every validation failure is a 400. |
| TransactionsController.AcceptedQuery | backend/Controllers/TransactionsController.cs:42-89 | An accepted query has an account number, a valid type and two dates that convert, and it carries their converted texts. |
| TransactionsController.GetTransactionsSpec | backend/Controllers/TransactionsController.cs:32-160 | A failed check is a 400, with neither a token fetch nor an upstream call. Otherwise the request goes to a URL built from the account and the converted dates, and the shared pass-through rules apply. |
| TransactionsController.ValidationOrder | backend/Controllers/TransactionsController.cs:42-63 | The order of checks: empty account, then empty dates, then a bad start date before a bad end date. |
| TransactionsController.GetTransactionSpec | backend/Controllers/TransactionsController.cs:168-239 | An empty path value is a 400 before the token fetch. The request URL names the account and the transaction, and an upstream 404 is "Transaction not found". |
| Http.ExceptionResponse | backend/Controllers/TransactionsController.cs:145-159 | A timeout is a 408 and any other exception a 500, with the message as the one error. |
| Http.ErrorResponse | backend/Controllers/TransactionsController.cs:134-143 | A non-success status is kept, with the upstream body as the one error; a 404 carries the action's message. |
| Http.ForwardSpec | backend/Controllers/TransactionsController.cs:91-159 | A request is sent exactly when a token was obtained, and it carries that token; no token is a 401. Success passes the body on verbatim, other statuses are kept, and an exception is 408 or 500. |
| AccountController.GetAccountNumbersSpec | backend/Controllers/AccountController.cs:22-79 | No token is a 401 with nothing sent. Otherwise one GET goes out with the bearer and Accept headers. Success is 200 with the body verbatim, other statuses (503 included) are kept, and exceptions are 408 or 500. |
| OAuthController.Parameters | backend/Controllers/Auth/OAuthController.cs:56-58 | One parameter per dictionary entry. |
| OAuthController.TwoParameters | backend/Controllers/Auth/OAuthController.cs:56-58 | With unreserved keys, the query is `k0=esc(v0)&k1=esc(v1)`. |
| OAuthController.AuthorizationUrlSpec | backend/Controllers/Auth/OAuthController.cs:49-60 | The URL is base + `?client_id=` + esc(ClientId) + `&redirect_uri=` + esc(RedirectUri), in that order. |
| OAuthController.SplitPair | backend/Controllers/Auth/OAuthController.cs:56 | Two texts without `&`, joined by `&`, split back into the two. |
| OAuthController.ParameterValue | backend/Controllers/Auth/OAuthController.cs:58 | A parameter contains no `&`, and its value unescapes to the original. |
| OAuthController.TwoParametersRoundTrip | backend/Controllers/Auth/OAuthController.cs:56-58 | A two-parameter query splits back into its parameters, and each value unescapes to the original. |
| OAuthController.AuthorizationQueryRoundTrip | backend/Controllers/Auth/OAuthController.cs:50-58 | The authorization query splits into exactly its two parameters, and each value unescapes to the configured setting. |
| OAuthController.GuardedRedirectSpec | backend/Controllers/Auth/OAuthController.cs:39-63 | An empty client id is checked before the redirect URI. The action redirects exactly when both are set, to the URL GetAuthorizationUrl reports. |
| OAuthController.RedirectGuards | backend/Controllers/Auth/OAuthController.cs:39-84 | The exact 400 messages of both redirecting actions, in guard order. |
| OAuthController.RedirectsAgree | backend/Controllers/Auth/OAuthController.cs:35-106 | Both actions redirect under the same conditions to the same URL. |
| OAuthController.AuthorizationUrlWithoutRedirectUri | backend/Controllers/Auth/OAuthController.cs:111-122 | With no redirect URI there is no validation, and the URL ends with an empty `redirect_uri=`. |
| OAuthController.TruncatedDivision | backend/Controllers/Auth/OAuthController.cs:203 | C# division truncates toward zero: the remainder has the dividend's sign and is smaller than the divisor. |
| OAuthController.CallbackNegativeLifetime | backend/Controllers/Auth/OAuthController.cs:185-206 | A completed exchange whose response says expires_in = −90 reports −1 minutes (C# truncation, not −2) and still stores the record, which then expires 90 seconds before now. |
| OAuthController.CallbackGuards | backend/Controllers/Auth/OAuthController.cs:141-171 | A blank code, then a blank redirect URI, is a 400 with nothing posted or stored. Otherwise exactly the three-field grant, with the unescaped code and the Basic credential, is posted. |
| OAuthController.CallbackPostsIssuedCode | backend/Controllers/Auth/OAuthController.cs:152-171 | A percent-encoded code is posted as the code that was issued. |
| OAuthController.CallbackStoresOnlyOnSuccess | backend/Controllers/Auth/OAuthController.cs:173-212 | Only a completed exchange stores anything, and then exactly one record. A non-success reply is a 400 carrying the upstream body and status. The reported minutes are `expires_in / 60`, truncated. |
| OAuthController.CallbackThenValidToken | backend/Controllers/Auth/OAuthController.cs:197-203 | After a completed callback that reports at least a minute, the valid-token query returns the stored record with no exchange. |
| OAuthController.CallbackOn | backend/Controllers/Auth/OAuthController.cs:141-221 | On the database, the callback's answer, posted request and token table are those of the callback specification. |

## Left out

- Not modelled:
  - `GoogleAuthController` and `IAuthService.GoogleAuthAsync`: there is no implementation.
  - `Logout` and `GetAuthStatus` of `UserAuthController`: constant answers with no state.
  - `GetTenants`, `GetTenant` and `CheckSubdomainAvailability` of `TenantController`: direct reads. The availability answer is `TenantService.IsSubdomainAvailable`.
  - `Program.cs`: dependency injection and hosting.
  - The React client.
- The `ITokenService` queries without bodies (current token, is-valid, time until expiry, needs-restart, refresh-token age) are not invented. Their results are inputs, and an exception is a `Call.Threw` value.
- HTTP transport, `HttpClient` and JSON deserialization are inputs (`send`, `parse`). JSON null is None, and the status code, headers and body are data.
- BCrypt is an input hash function and verify predicate. No property of BCrypt is assumed.
- `HttpUtility.UrlEncode` is an input. `QueryOrder` assumes only that it never outputs `&`.
- `DateTime.TryParse` with the current culture is an input. Only the exact `yyyy-MM-dd` branch is modelled.
- `DateTime.UtcNow` is the parameter `now`. Token times are whole seconds, so `AddSeconds` rounding and sub-second precision are not modelled.
- `TotalDays` and `TotalMinutes` are doubles in the source. The model uses exact ticks and Dafny `real`.
- The timestamp renderings (`dd.hh:mm:ss`, `Timestamp = UtcNow`) are not modelled. Neither are the time separator of other cultures nor calendars other than the Gregorian.
- `Text.ToLower` and `Text.ToUpper` cover the ASCII letters only; other letters are left unchanged.
- `UnescapeDataString` is weaker than .NET on invalid escape sequences. Escapes that do not form UTF-8 return the whole input unchanged, where .NET keeps the invalid sequences and decodes the rest.
- `TokenService.LatestIndex` picks the last appended record among equal creation times. The source leaves the tie unspecified; `Latest` promises only a record with the greatest creation time.
- `TokenRefresh.RefreshService` keeps the counter as an unbounded `nat`. The C# `int` would wrap after 2^31 − 1 consecutive failures.
- `RefreshService.ExecuteAsync` gets the ticks that run before cancellation as a sequence. `Task.Delay`, cancellation, concurrency and logging are left out.
- `Guid.NewGuid` is a counter (`Data.AppDb.NewGuid`), so a fresh key never collides. Random Guids are unique only with overwhelming probability.
- Database writes (`SaveChangesAsync`) always succeed. Neither failures nor `DbUpdateConcurrencyException` in `UpdateTenant` are modelled.
- The framework's `[Required]` model validation is left out, and so is the unused `session` parameter of `Callback`. A missing query value arrives as an empty or null text.
- The catch clauses of the redirecting actions cannot be reached: with both settings present, nothing in them throws. A malformed `AuthorizeUrl` is not checked, because `Redirect` accepts any text.
- `AuthService.Register`'s generic "Registration failed" catch is not modelled, because the modelled steps do not throw. The login catch, for a user whose tenant is missing, is modelled.
- The model follows the code in these points, which a reader might expect otherwise:
  - GetValidTokenAsync treats a token as expired only when `ExpiresAt < UtcNow` (backend/Services/TokenService.cs:42), so a token expiring exactly now is returned;
  - the 7-day refresh-token lifetime that backend/Controllers/TokenController.cs:52 and backend/Controllers/Auth/OAuthController.cs:135 advertise is never checked before a refresh, and an empty refresh token is posted as `""` (backend/Services/TokenService.cs:65);
  - a calendar leap year of `yyyy-MM-dd` dates fails `TotalDays > 365` (backend/Controllers/TransactionsController.cs:70, `LeapYearRejected`);
  - the tenant controller validates with the subdomain check as written (backend/Controllers/TenantController.cs:168), so `TenantController.CreateTenant` and `TenantController.UpdateTenant` accept and store a subdomain followed by one line feed; the corrected check is stated separately under "## Findings".
- OAuthController.CallbackThenValidToken: stated only for lifetimes reported as at least one minute, because a negative lifetime under a minute also reports 0 minutes while the stored record is already expired.

## Findings

| source | as written | input that shows it | evidently intended | confidence | as-written member | corrected member |
|---|---|---|---|---|---|---|
| backend/Controllers/TenantController.cs:168 | `Regex.IsMatch` with `^…$`, where .NET's `$` also matches before a final line feed | `"ab\n"` is accepted as a subdomain | only `[a-z0-9-]` text without a leading or trailing `-`, 3 to 50 long | not executed | Subdomain.AsWrittenAcceptsNewline | Subdomain.IsValidSubdomainIff |

# Y-mail core, modelled in Dafny

Y-mail is a small Flask webmail front end (`app.py`). A user signs in with an
e-mail address and password. The address's domain picks an IMAP host from a
fixed table of seven providers. The login is checked against that host, and
the credentials are kept in the browser session. The inbox is listed 25
messages per page, newest first. A single message is shown with its HTML body
if it has one, otherwise its plain-text body. Dates are shown in Japan time.

This project models that core and proves properties of it:

- `directory.dfy` (module `Directory`): the `IMAP_SERVERS` table, Python's
  `split('@')`, and the domain taken as element 1 of the split.
- `pagination.dfy` (module `Pagination`): `math.ceil(total / 25)`, Python's
  slice rules (negative and out-of-range bounds included) and `reversed`.
- `mime.dfy` (module `Mime`): `decode_str`, the attachment test, and the loop
  of `get_email_body` as a method proved against a recursive definition.
- `jst_date.dfy` (module `JstDate`): `format_date_to_jst`. It checks the
  fields the way `datetime` does, treats a missing offset as UTC, shifts to
  UTC+9 with day, month and year rollover and leap years, applies the
  years 1..9999 limit, and formats as `YYYY-MM-DD HH:MM`.
- `webmail.dfy` (module `Webmail`): the `Session` class holding the
  optional credentials, with one method per route (`home`, `login`, `inbox`,
  `view_email`, `logout`). It also holds the listing loop, the summary and
  detail records, and lemmas about the credentials after any sequence of
  route events.
- `wrappers.dfy` (module `Wrappers`): `Option` and `Result`.

Things the code does not do itself are inputs:

- The IMAP server is an `Option<Mailbox>`. None means that connecting,
  logging in, selecting INBOX, searching or logging out failed. Otherwise it
  holds the `SEARCH ALL` ids and what fetching an id returns.
- Whether the login check succeeds is a boolean.
- `decode_header`, the byte codec and `parsedate_to_datetime` are function
  values. For the codec and the date parser, a result of None means the
  library raised. `decode_header` gives a list of chunks, and an empty list
  stands for it raising (for example HeaderParseError on a malformed base64
  encoded word).

A raised exception becomes `None` in the model. The route then does what its
`except` does: the inbox clears the credentials and redirects to login, and
the message view redirects to the inbox.

Behaviour of `app.py` that the model keeps:

- A failed message view keeps the credentials. It does not force a logout.
- Page numbers of 0 or below are not rejected. Python's negative slice
  indices apply, so page -1 of a 57-message inbox shows the 8th to 32nd
  newest messages (`Pagination.NegativePageWrapsAround`).
- Decoding can fail. An unknown charset raises inside the codec, and a
  missing Subject or From header makes `decode_header(None)` raise. That
  failure ends the whole request, and in the inbox it also logs the user out.
- Only the first `decode_header` chunk of a Subject or From header is shown.
  Later encoded words are dropped (`Webmail.LaterChunksIgnored`).

## Model

| member | source | states |
|---|---|---|
| `Directory.Lookup` | app.py:20-28 | each of the seven domains gives exactly its listed host (gmail.com, outlook/hotmail/live.com, yahoo.co.jp, icloud/me.com); every other domain, and a missing one, gives None |
| `Directory.SupportedDomainsAreTableKeys` | app.py:20-28 | the supported domains are exactly the keys of the table |
| `Directory.Split` | app.py:90 | `split('@')` yields at least one piece, no piece contains the separator, joining the pieces with it gives the input back, and there is one piece exactly when the separator does not occur |
| `Directory.DomainOf` | app.py:89-92 | an address has no domain exactly when it contains no '@'; a domain never contains '@' |
| `Directory.HostFor` | app.py:89-93 | a host is found exactly when the address has a domain and that domain is in the table |
| `Directory.SplitHead` | app.py:90 | the first piece of a split is the longest separator-free prefix of the input |
| `Directory.DomainBetweenFirstTwoAts` | app.py:89-92 | when the address has an '@', the domain is the longest '@'-free text after the first '@', up to the second '@' or the end |
| `Directory.NoAtNoDomain` | app.py:89-92 | an address without '@' has no domain (the IndexError branch) |
| `Directory.DomainOfSimpleAddress` | app.py:89-92 | `local@domain` with no other '@' has exactly `domain` as its domain |
| `Directory.SupportedAddress` | app.py:89-93 | an address whose domain is in the table reaches that domain's host |
| `Directory.CaseSensitive` | app.py:93 | `Gmail.com` is not found: the lookup is case-sensitive |
| `Directory.EmptyDomain` | app.py:89-96 | an address ending in '@' has the empty domain, which is unsupported |
| `Directory.SecondAtIgnored` | app.py:90 | text after a second '@' is not part of the domain |
| `Directory.HostForIsTableHost` | app.py:93 | a host found for an address is the table entry for its domain |
| `Webmail.UnsupportedMessage` | app.py:95-96 | the unsupported-provider error is the fixed prefix, then the domain as an f-string prints it ("None" when missing), then ')' |
| `Webmail.Authenticate` | app.py:89-109 | a login succeeds exactly when the domain's host is known and the IMAP check passed, and then stores that host, the address and the password; an unknown domain gives the unsupported error naming the domain; a failed check gives the fixed login-failed error |
| `Mime.EffectiveCharset` | app.py:32 | the charset used is the given one, or utf-8 when it is None or empty |
| `Mime.DecodeStr` | app.py:30-33 | a non-bytes value is returned unchanged; bytes are decoded by the codec with the effective charset |
| `Mime.ContainsAt` | app.py:68 | Python's substring test holds exactly when the text occurs at some position |
| `Mime.IsAttachment` | app.py:67-68 | a part is an attachment exactly when "attachment" occurs at some position of its printed Content-Disposition, "None" for a missing header |
| `Mime.WalkBody` | app.py:64-72 | with no non-attachment text/html or text/plain part, the walk returns the body it started with; a result that differs from it is the decoding of one such part |
| `Mime.SelectBody` | app.py:62-75 | a single-part message gives its payload's decoding; a multipart message gives "" when it has no non-attachment text part, and a non-empty body is always the decoding of one such part |
| `Mime.MissingDispositionIsNotAttachment` | app.py:67-68 | a part with no Content-Disposition header (printed as "None") is not an attachment |
| `Mime.GetEmailBody` | app.py:62-75 | the walk loop with its early return yields the body the recursive definition gives; a single-part message yields its payload decoded with its charset, whatever its content type |
| `Mime.HtmlPreferred` | app.py:64-70 | the first non-attachment text/html part wins, even after plain parts: the result is its decoding, or a failure only if an earlier plain decoding raised; with no such earlier failure it is exactly that part's decoding |
| `Mime.PlainFallback` | app.py:71-75 | without an HTML part, the body is "" exactly when every non-attachment plain part decodes to ""; otherwise the first plain part whose decoding is not "" decides the result |
| `Mime.NonEmptyBodyKept` | app.py:71-72 | once the body is non-empty, later plain parts never replace it |
| `Mime.AttachmentIgnored` | app.py:67-68 | inserting an attachment part anywhere in the walk never changes the result |
| `JstDate.ToDateTime` | app.py:42 | a parsed record becomes a datetime exactly when its fields are in `datetime`'s ranges (years 1..9999, a real month and day, hour, minute and second), and the datetime keeps those fields |
| `JstDate.UtcOffset` | app.py:42-46 | a missing offset is taken as 0 (UTC); a given offset is used unchanged when it is under 24 hours either way and rejected otherwise |
| `JstDate.NoOffsetMeansUtc` | app.py:44-46 | a date without an offset converts exactly like the same date at +0000 |
| `JstDate.AddDays` | app.py:52 | moving a valid date by k days gives a valid date whose ordinal is k more |
| `JstDate.NextDayOrdinal` | app.py:52 | the next day after a valid date is valid and one ordinal later, across month and year ends and leap days |
| `JstDate.PrevDayOrdinal` | app.py:52 | the day before a valid date is valid and one ordinal earlier |
| `JstDate.DaysBeforeYearIncreasing` | app.py:52 | later years begin on later days |
| `JstDate.ShiftInstant` | app.py:52 | shifting a valid time by `delta` minutes gives a valid time exactly `delta` minutes later |
| `JstDate.Shift` | app.py:52 | adding a number of minutes to a valid wall-clock time gives a valid wall-clock time (its instant: `ShiftInstant`) |
| `JstDate.Convert` | app.py:49-52 | a converted time is a valid time in the years 1..9999, and so was the UTC time it passed through |
| `JstDate.ToJst` | app.py:42-52 | a result exists only when both the datetime and its offset were accepted, and it is a valid time in the years 1..9999 |
| `JstDate.YearRangeByInstant` | app.py:52 | a valid time is in the years 1..9999 exactly when its instant is in the representable range |
| `JstDate.InstantInjective` | app.py:52 | distinct valid times name distinct instants |
| `JstDate.JstSucceeds` | app.py:40-59 | conversion succeeds exactly when the fields are valid, the offset is under 24 hours, and both the UTC time and the Japan time lie in the years 1..9999 |
| `JstDate.JstInstant` | app.py:44-52 | a successful conversion yields the unique valid time, in the years 1..9999, naming the parsed instant plus nine hours minus the offset |
| `JstDate.ConvertInstant` | app.py:52 | the same, for a time already paired with its offset |
| `JstDate.ConvertSucceeds` | app.py:52 | the same success condition, for a time already paired with its offset |
| `JstDate.DigitsRoundTrip` | app.py:55 | zero-padding a number that fits the width loses nothing: reading the digits back gives the number |
| `JstDate.Strftime` | app.py:55 | the printed form is always 16 characters (its layout: `StrftimeLayout`) |
| `JstDate.StrftimeLayout` | app.py:55 | the output has 16 characters: '-', '-', ' ' and ':' at positions 4, 7, 10 and 13, and zero-padded year, month, day, hour and minute between them |
| `JstDate.StrftimeReadsBack` | app.py:55 | each field of the output is all digits and reads back as the year, month, day, hour or minute it came from |
| `JstDate.FormatDateToJst` | app.py:36-59 | an absent or empty Date header gives "日時不明"; a header the parser or the conversion rejects is returned verbatim |
| `JstDate.FormatConverted` | app.py:52-55 | a header whose conversion succeeded is printed as the converted time |
| `JstDate.OctoberExample` | app.py:54 | 2025-10-07 00:35 +0000 is shown as "2025-10-07 09:35" |
| `JstDate.NewYearExample` | app.py:52-55 | 2024-12-31 20:00 -0500 is shown as "2025-01-01 10:00" |
| `Pagination.TotalPages` | app.py:129-130 | the page count is the integer ceiling of total/25: 0 exactly for an empty inbox, and otherwise `(pages-1)*25 < total <= pages*25` |
| `Pagination.SliceBound` | app.py:134 | a slice bound is counted from the end when negative and clamped to [0, len] |
| `Pagination.PySlice` | app.py:134 | `s[start:end]` holds the elements from the normalised start up to the normalised end, in order, and is empty when those cross |
| `Pagination.Reverse` | app.py:134 | `list(reversed(s))` has the length of `s` (its elements: `ReverseAt`) |
| `Pagination.PageIds` | app.py:131-134 | no page number, 0 and negative ones included, lists more than 25 ids |
| `Pagination.ReverseAt` | app.py:134 | element i of `reversed(ids)` is element `len-1-i` of `ids` |
| `Pagination.PageSlice` | app.py:131-134 | for page >= 1 the listed ids are `reversed(ids)[min((page-1)*25, total) : min(page*25, total)]` |
| `Pagination.PageWindow` | app.py:131-134 | for page >= 1 at most 25 ids are listed, newest first from position (page-1)*25, and none exactly when the page is past the last page |
| `Pagination.FullPagesBeforeLast` | app.py:129-134 | every page before the last holds exactly 25 ids |
| `Pagination.PagesCoverInbox` | app.py:129-134 | pages 1 to total_pages, one after another, list every id once, newest first |
| `Pagination.PageZeroIsEmpty` | app.py:131-134 | page 0 lists nothing |
| `Pagination.NegativePageWrapsAround` | app.py:118-134 | page -1 of a 57-id inbox lists the 8th to 32nd newest ids |
| `Pagination.FiftySevenMessages` | app.py:129-134 | 57 ids make 3 pages: page 1 lists the 25 newest ids, page 3 lists positions 50 to 56 of the reversed list, and page 4 lists none |
| `Webmail.LaterChunksIgnored` | app.py:142-143 | only the first `decode_header` chunk of a header is displayed |
| `Webmail.PlainHeaderUnchanged` | app.py:142-148 | a header without encoded words is displayed unchanged |
| `Webmail.HeaderText` | app.py:142-148 | an absent header gives a failure; a present header whose `decode_header` gives chunks is shown as the decoding of the first chunk with its charset, and nothing else is ever shown |
| `Webmail.Summarize` | app.py:138-151 | a row exists exactly when the fetch and both header decodings succeed, and it carries the id, the decoded subject and sender, and the Japan-time date |
| `Webmail.Listed` | app.py:136-151 | the page lists one row per listed id, in the same order; row k is the summary (id, subject, sender, Japan-time date) of the k-th listed id |
| `Webmail.ListPage` | app.py:129-151 | the listing loop succeeds exactly when every listed id can be summarised; it then returns exactly those rows, and it always gives ceil(total/25) pages |
| `Webmail.ListingWindow` | app.py:131-151 | for page >= 1 a listing has at most 25 rows, none past the last page, and row k is the ((page-1)*25+k)-th newest message |
| `Webmail.DetailOf` | app.py:166-184 | the message page exists exactly when the fetch, both header decodings and the body selection succeed, and it shows those values and the Japan-time date |
| `Webmail.Step` | app.py:102-194 | a verified login stores its credentials; a failed listing and a logout clear them; every other route leaves them as they are |
| `Webmail.Run` | app.py:102-194 | a sequence of events that all leave the credentials alone ends with the credentials it began with |
| `Webmail.RunHolds` | app.py:102-194 | after any sequence of route events, the session holds credentials c exactly when a verified login stored c and no later listing failure, logout or login replaced them (or the session began with c and nothing touched them) |
| `Webmail.FreshSessionHolds` | app.py:102-194 | starting from no credentials, they are present only if a verified login stored them and nothing since removed them |
| `Webmail.Session.Valid` | app.py:89-106 | stored credentials always belong to an address whose domain is in the table |
| `Webmail.Session.Home` | app.py:77-81 | `/` redirects to the inbox when credentials are stored, otherwise to login |
| `Webmail.Session.Login` | app.py:83-111 | GET shows the form and changes nothing; POST stores credentials only after a successful check, then redirects to the inbox; otherwise it shows the form with the error and leaves the session unchanged; stored host always matches the address's domain |
| `Webmail.Session.Inbox` | app.py:113-159 | without credentials, redirects to login; on success renders the listed rows with the address, the page and the page count, keeping the credentials; on any failure clears them and redirects to login |
| `Webmail.Session.ViewEmail` | app.py:161-190 | without credentials, redirects to login; on success renders subject, sender, Japan-time date and the selected body; on any failure redirects to the inbox; it never changes the credentials |
| `Webmail.Session.Logout` | app.py:192-195 | always clears the credentials and redirects to login |

## Left out

- All IMAP traffic: `IMAP4_SSL`, `login`, `select`, `search`, `fetch` and `logout`. Their outcome is an input. The model does not capture that a failed inbox request leaves its connection open, or which credentials the server accepts.
- Flask: routing, `render_template`, `redirect`, `url_for`, form and query parsing (including `type=int` falling back to page 1), the secret key, `load_dotenv` and `app.run`. A response is a plain value naming the page or redirect target.
- Session storage: cookie signing and concurrent requests on one session. The session is one object updated by one route at a time.
- Logging: the `print` calls.
- `email.message_from_bytes`, `walk()`, `get_content_type()`, `get_content_charset()` and `get_payload(decode=True)`. Their results are the fields of a part, in `walk()` order.
- `decode_header` (RFC 2047 encoded words). It is a function from a header value to a chunk list.
- The byte codecs, including which bytes `errors='ignore'` drops and which charset names raise LookupError. The codec is a function that may return None.
- The date grammar of `parsedate_to_datetime` (RFC 5322 section 3.3). It is a function returning the civil fields and an optional offset in minutes.
- Time-zone data: Asia/Tokyo is a fixed UTC+9. The real zone database has local mean time before 1888 and summer time in 1948-1951, so dates in those periods would print differently.
- JstDate.Strftime: pads the year to four digits. CPython on glibc prints years below 1000 without padding.
- JstDate.DateTime: keeps no seconds. Offsets are whole minutes, so seconds never affect the printed minute.
- Pagination.TotalPages: uses exact integer division. Python divides in floating point first, which gives the same result for message counts below 2^53.
- The decoding of message ids from bytes (`email_id_bytes.decode()`). Ids are strings from the start.
- Session.Login: the IMAP check is a boolean input. The model does not capture that its outcome depends on the host, address and password.

/**
  The routes of the web front end over one session: login, inbox listing,
  message view and logout, and what each does to the stored credentials.
  The IMAP server is an input: None where connecting, logging in, selecting
  INBOX, searching or logging out fails, otherwise the mailbox it serves.
 */
module Webmail {
  import opened Wrappers
  import opened Directory
  import opened Mime
  import opened JstDate
  import opened Pagination

  /** One element of `decode_header(value)`: a chunk and its charset. */
  datatype Chunk = Chunk(text: Text, charset: Option<string>)

  /** The library routines the routes call: `decode_header`, the byte codec and `parsedate_to_datetime`. */
  datatype Decoders = Decoders(decodeHeader: string -> seq<Chunk>, codec: Codec, parseDate: Parser)

  /** The Subject, From and Date headers of a fetched message; None when absent. */
  datatype Headers = Headers(subject: Option<string>, from: Option<string>, date: Option<string>)

  /** A full message as `fetch(id, "(RFC822)")` and `message_from_bytes` give it. */
  datatype FetchedMessage = FetchedMessage(headers: Headers, message: Message)

  /**
    INBOX as the server shows it to one connection: the `SEARCH ALL` ids in
    server order, and what fetching an id returns (None where the fetch fails).
   */
  datatype Mailbox = Mailbox(
    ids: seq<string>,
    fetchHeaders: string -> Option<Headers>,
    fetchMessage: string -> Option<FetchedMessage>)

  datatype Credentials = Credentials(imapServer: string, emailAddress: string, password: string)

  /** One row of the inbox page. */
  datatype Summary = Summary(id: string, subject: string, sender: string, date: string)

  /** What the message page shows. */
  datatype Detail = Detail(subject: string, sender: string, date: string, body: string)

  datatype Route = LoginRoute | InboxRoute

  datatype Response =
    | Redirect(to: Route)
    | LoginForm(error: Option<string>)
    | InboxView(emails: seq<Summary>, address: string, page: int, totalPages: nat)
    | MessageView(detail: Detail)

  datatype LoginRequest = Get | Post(address: string, password: string)

  const UnsupportedPrefix: string := "対応していない、または不明なメールサービスです: ("

  /** The error shown for an address whose domain is not in the table; it names the domain. */
  function UnsupportedMessage(domain: Option<string>): (msg: string)
    ensures |msg| == |UnsupportedPrefix| + |OptionText(domain)| + 1
    ensures msg[..|UnsupportedPrefix|] == UnsupportedPrefix
    ensures msg[|UnsupportedPrefix|..|msg| - 1] == OptionText(domain) && msg[|msg| - 1] == ')'
  {
    UnsupportedPrefix + OptionText(domain) + ")"
  }

  /** The error shown when the IMAP login check fails. */
  const LoginFailedMessage: string := "ログインに失敗しました。メールアドレスやパスワード（またはアプリパスワード）を確認してください。"

  /**
    The POST branch of the login route: the host comes from the address's
    domain; `imapOk` says whether connecting and logging in to that host with
    the address and password succeeded (it is consulted only for a known host).
   */
  function Authenticate(address: string, password: string, imapOk: bool): (r: Result<Credentials, string>)
    ensures r.Ok? <==> HostFor(address).Some? && imapOk
    ensures r.Ok? ==>
      r.value.emailAddress == address && r.value.password == password && HostFor(address) == Some(r.value.imapServer)
    ensures HostFor(address).None? ==> r == Err(UnsupportedMessage(DomainOf(address)))
    ensures HostFor(address).Some? && !imapOk ==> r == Err(LoginFailedMessage)
  {
    match HostFor(address)
    case None => Err(UnsupportedMessage(DomainOf(address)))
    case Some(host) => if imapOk then Ok(Credentials(host, address, password)) else Err(LoginFailedMessage)
  }

  /**
    `decode_str(*decode_header(value)[0])`: only the first chunk is used; None
    when the header is absent (decode_header raises TypeError), when
    `decodeHeader` gives no chunk (it stands for decode_header raising, e.g.
    HeaderParseError on a malformed encoded word), or when the codec raises.
   */
  function HeaderText(raw: Option<string>, dec: Decoders): (r: Option<string>)
    ensures raw.None? ==> r.None?
    ensures raw.Some? && |dec.decodeHeader(raw.value)| > 0 ==>
      r == DecodeStr(dec.decodeHeader(raw.value)[0].text, dec.decodeHeader(raw.value)[0].charset, dec.codec)
    ensures r.Some? ==>
      (raw.Some? && |dec.decodeHeader(raw.value)| > 0 &&
       r == DecodeStr(dec.decodeHeader(raw.value)[0].text, dec.decodeHeader(raw.value)[0].charset, dec.codec))
  {
    match raw
    case None => None
    case Some(v) =>
      var chunks := dec.decodeHeader(v);
      if |chunks| == 0 then None else DecodeStr(chunks[0].text, chunks[0].charset, dec.codec)
  }

  /** Chunks after the first never reach the page: two decodings that agree on the first chunk give the same text. */
  lemma LaterChunksIgnored(v: string, dec: Decoders, dec': Decoders)
    requires dec.codec == dec'.codec
    requires |dec.decodeHeader(v)| > 0 && |dec'.decodeHeader(v)| > 0
    requires dec.decodeHeader(v)[0] == dec'.decodeHeader(v)[0]
    ensures HeaderText(Some(v), dec) == HeaderText(Some(v), dec')
  {
  }

  /** A header that is plain text (one chunk without charset, as decode_header gives for it) is shown unchanged. */
  lemma PlainHeaderUnchanged(v: string, dec: Decoders)
    requires dec.decodeHeader(v) == [Chunk(Str(v), None)]
    ensures HeaderText(Some(v), dec) == Some(v)
  {
  }

  /** The summary built for `id` in the listing loop; None where a step raises. */
  function Summarize(mb: Mailbox, id: string, dec: Decoders): (r: Option<Summary>)
    ensures r.Some? <==>
      (mb.fetchHeaders(id).Some? &&
       HeaderText(mb.fetchHeaders(id).value.subject, dec).Some? &&
       HeaderText(mb.fetchHeaders(id).value.from, dec).Some?)
    ensures r.Some? ==>
      (r.value.id == id &&
       r.value.subject == HeaderText(mb.fetchHeaders(id).value.subject, dec).value &&
       r.value.sender == HeaderText(mb.fetchHeaders(id).value.from, dec).value &&
       r.value.date == FormatDateToJst(mb.fetchHeaders(id).value.date, dec.parseDate))
  {
    match mb.fetchHeaders(id)
    case None => None
    case Some(h) =>
      var subject := HeaderText(h.subject, dec);
      var sender := HeaderText(h.from, dec);
      if subject.None? || sender.None? then None
      else Some(Summary(id, subject.value, sender.value, FormatDateToJst(h.date, dec.parseDate)))
  }

  /** Every id on page `page` gets a summary without raising. */
  predicate ListingOk(mb: Mailbox, page: int, dec: Decoders)
  {
    var target := PageIds(mb.ids, page);
    forall i | 0 <= i < |target| :: Summarize(mb, target[i], dec).Some?
  }

  /** The summaries of page `page`: one per listed id, in the same order, carrying that id. */
  function Listed(mb: Mailbox, page: int, dec: Decoders): (r: seq<Summary>)
    requires ListingOk(mb, page, dec)
    ensures |r| == |PageIds(mb.ids, page)| <= |mb.ids|
    ensures forall i | 0 <= i < |r| :: r[i].id == PageIds(mb.ids, page)[i]
    ensures forall i | 0 <= i < |r| :: r[i] == Summarize(mb, PageIds(mb.ids, page)[i], dec).value
  {
    var target := PageIds(mb.ids, page);
    seq(|target|, i requires 0 <= i < |target| => Summarize(mb, target[i], dec).value)
  }

  /** The loop of the inbox route that fetches and summarises the page's ids, stopping at the first failure. */
  method ListPage(mb: Mailbox, page: int, dec: Decoders) returns (emails: Option<seq<Summary>>, totalPages: nat)
    ensures totalPages == TotalPages(|mb.ids|)
    ensures emails.Some? <==> ListingOk(mb, page, dec)
    ensures emails.Some? ==> emails.value == Listed(mb, page, dec)
  {
    totalPages := TotalPages(|mb.ids|);
    var target := PageIds(mb.ids, page);
    var acc: seq<Summary> := [];
    for i := 0 to |target|
      invariant |acc| == i
      invariant forall k | 0 <= k < i :: Summarize(mb, target[k], dec) == Some(acc[k])
    {
      var summary := Summarize(mb, target[i], dec);
      if summary.None? {
        return None, totalPages;
      }
      acc := acc + [summary.value];
    }
    emails := Some(acc);
  }

  /** With a page number of at least 1 the listing shows at most 25 newest-first rows, none past the last page. */
  lemma ListingWindow(mb: Mailbox, page: int, dec: Decoders)
    requires page >= 1 && ListingOk(mb, page, dec)
    ensures |Listed(mb, page, dec)| <= PageSize
    ensures page > TotalPages(|mb.ids|) ==> Listed(mb, page, dec) == []
    ensures forall k | 0 <= k < |Listed(mb, page, dec)| ::
      Listed(mb, page, dec)[k].id == mb.ids[|mb.ids| - 1 - ((page - 1) * PageSize + k)]
  {
    PageWindow(mb.ids, page);
  }

  /** The message page for `id`; None where fetching, a header, or the body raises. */
  function DetailOf(mb: Mailbox, id: string, dec: Decoders): (r: Option<Detail>)
    ensures r.Some? <==>
      (mb.fetchMessage(id).Some? &&
       HeaderText(mb.fetchMessage(id).value.headers.subject, dec).Some? &&
       HeaderText(mb.fetchMessage(id).value.headers.from, dec).Some? &&
       SelectBody(mb.fetchMessage(id).value.message, dec.codec).Some?)
    ensures r.Some? ==>
      (r.value.subject == HeaderText(mb.fetchMessage(id).value.headers.subject, dec).value &&
       r.value.sender == HeaderText(mb.fetchMessage(id).value.headers.from, dec).value &&
       r.value.date == FormatDateToJst(mb.fetchMessage(id).value.headers.date, dec.parseDate) &&
       r.value.body == SelectBody(mb.fetchMessage(id).value.message, dec.codec).value)
  {
    match mb.fetchMessage(id)
    case None => None
    case Some(m) =>
      var subject := HeaderText(m.headers.subject, dec);
      var sender := HeaderText(m.headers.from, dec);
      var body := SelectBody(m.message, dec.codec);
      if subject.None? || sender.None? || body.None? then None
      else Some(Detail(subject.value, sender.value, FormatDateToJst(m.headers.date, dec.parseDate), body.value))
  }

  /** What a route does to the stored credentials. */
  datatype Event =
    | LoginVerified(creds: Credentials)
    | LoginRejected
    | ListingShown
    | ListingFailed
    | MessageShown
    | MessageFailed
    | LoggedOut
    | Visited

  /** Credentials are set by a verified login and removed by a failed listing or a logout. */
  function Step(s: Option<Credentials>, e: Event): (r: Option<Credentials>)
    ensures e.LoginVerified? ==> r == Some(e.creds)
    ensures e == ListingFailed || e == LoggedOut ==> r == None
    ensures Keeps(e) ==> r == s
  {
    match e
    case LoginVerified(c) => Some(c)
    case ListingFailed => None
    case LoggedOut => None
    case _ => s
  }

  /** Events that leave the stored credentials as they are. */
  predicate Keeps(e: Event)
  {
    !e.LoginVerified? && e != ListingFailed && e != LoggedOut
  }

  /** The credentials after a sequence of route events. */
  function Run(s: Option<Credentials>, events: seq<Event>): (r: Option<Credentials>)
    ensures (forall j | 0 <= j < |events| :: Keeps(events[j])) ==> r == s
  {
    if events == [] then s else Step(Run(s, events[..|events| - 1]), events[|events| - 1])
  }

  /**
    After any sequence of events the session holds `c` exactly when either
    some verified login stored `c` and no later event touched the credentials,
    or the session started with `c` and no event touched them.
   */
  lemma {:induction false} RunHolds(s: Option<Credentials>, events: seq<Event>, c: Credentials)
    ensures Run(s, events) == Some(c) <==>
      (exists i | 0 <= i < |events| :: events[i] == LoginVerified(c) &&
         forall j | i < j < |events| :: Keeps(events[j]))
      || (s == Some(c) && forall j | 0 <= j < |events| :: Keeps(events[j]))
  {
    if events != [] {
      var n := |events| - 1;
      var init := events[..n];
      RunHolds(s, init, c);
      var e := events[n];
      if Keeps(e) {
        if exists i | 0 <= i < |init| :: init[i] == LoginVerified(c) && forall j | i < j < |init| :: Keeps(init[j]) {
          var i :| 0 <= i < |init| && init[i] == LoginVerified(c) && forall j | i < j < |init| :: Keeps(init[j]);
          assert events[i] == init[i];
          assert forall j | i < j < |events| :: Keeps(events[j]) by {
            forall j | i < j < |events| ensures Keeps(events[j]) {
              if j < n { assert events[j] == init[j]; }
            }
          }
        }
        if exists i | 0 <= i < |events| :: events[i] == LoginVerified(c) && forall j | i < j < |events| :: Keeps(events[j]) {
          var i :| 0 <= i < |events| && events[i] == LoginVerified(c) && forall j | i < j < |events| :: Keeps(events[j]);
          assert i < n;
          assert init[i] == events[i];
          assert forall j | i < j < |init| :: Keeps(init[j]) by {
            forall j | i < j < |init| ensures Keeps(init[j]) {
              assert init[j] == events[j];
            }
          }
        }
        assert (forall j | 0 <= j < |events| :: Keeps(events[j])) <==> (forall j | 0 <= j < |init| :: Keeps(init[j])) by {
          if forall j | 0 <= j < |init| :: Keeps(init[j]) {
            forall j | 0 <= j < |events| ensures Keeps(events[j]) {
              if j < n { assert events[j] == init[j]; }
            }
          }
          if forall j | 0 <= j < |events| :: Keeps(events[j]) {
            forall j | 0 <= j < |init| ensures Keeps(init[j]) {
              assert init[j] == events[j];
            }
          }
        }
      } else {
        assert !(forall j | 0 <= j < |events| :: Keeps(events[j]));
        if e == LoginVerified(c) {
          assert events[n] == LoginVerified(c);
        }
      }
    }
  }

  /** From a fresh session, credentials are present only if a verified login stored them and nothing since removed them. */
  lemma FreshSessionHolds(events: seq<Event>, c: Credentials)
    ensures Run(None, events) == Some(c) <==>
      exists i | 0 <= i < |events| :: events[i] == LoginVerified(c) &&
        forall j | i < j < |events| :: Keeps(events[j])
  {
    RunHolds(None, events, c);
  }

  /** The browser session: the `session["credentials"]` entry and the routes that read and write it. */
  class Session {
    var credentials: Option<Credentials>

    /** Stored credentials always name the host the table gives for their address. */
    ghost predicate Valid()
      reads this
      ensures Valid() && credentials.Some? ==>
        DomainOf(credentials.value.emailAddress).Some? && DomainOf(credentials.value.emailAddress).value in SupportedDomains
    {
      credentials.Some? ==> HostFor(credentials.value.emailAddress) == Some(credentials.value.imapServer)
    }

    constructor ()
      ensures Valid() && credentials == None
    {
      credentials := None;
    }

    /** `/`: on to the inbox when logged in, otherwise to the login page. */
    method Home() returns (r: Response)
      ensures r == Redirect(if credentials.Some? then InboxRoute else LoginRoute)
    {
      if credentials.Some? {
        r := Redirect(InboxRoute);
      } else {
        r := Redirect(LoginRoute);
      }
    }

    /** `/login`: a GET shows the form; a POST stores credentials only after the host is known and the IMAP login succeeded. */
    method Login(req: LoginRequest, imapOk: bool) returns (r: Response)
      requires Valid()
      modifies this
      ensures Valid()
      ensures req.Get? ==> r == LoginForm(None) && credentials == old(credentials)
      ensures req.Post? ==>
        match Authenticate(req.address, req.password, imapOk)
        case Ok(c) => r == Redirect(InboxRoute) && credentials == Step(old(credentials), LoginVerified(c))
        case Err(msg) => r == LoginForm(Some(msg)) && credentials == Step(old(credentials), LoginRejected)
    {
      if req.Get? {
        return LoginForm(None);
      }
      var outcome := Authenticate(req.address, req.password, imapOk);
      if outcome.Err? {
        return LoginForm(Some(outcome.error));
      }
      credentials := Some(outcome.value);
      r := Redirect(InboxRoute);
    }

    /**
      `/inbox?page=…`: lists one page, or on any failure removes the
      credentials and sends the user back to the login page.
     */
    method Inbox(page: int, server: Option<Mailbox>, dec: Decoders) returns (r: Response)
      requires Valid()
      modifies this
      ensures Valid()
      ensures old(credentials).None? ==> r == Redirect(LoginRoute) && credentials == None
      ensures old(credentials).Some? && server.Some? && ListingOk(server.value, page, dec) ==>
        r == InboxView(Listed(server.value, page, dec), old(credentials).value.emailAddress, page, TotalPages(|server.value.ids|))
        && credentials == Step(old(credentials), ListingShown)
      ensures old(credentials).Some? && !(server.Some? && ListingOk(server.value, page, dec)) ==>
        r == Redirect(LoginRoute) && credentials == Step(old(credentials), ListingFailed)
    {
      if credentials.None? {
        return Redirect(LoginRoute);
      }
      var creds := credentials.value;
      if server.None? {
        credentials := None;
        return Redirect(LoginRoute);
      }
      var emails, totalPages := ListPage(server.value, page, dec);
      if emails.None? {
        credentials := None;
        return Redirect(LoginRoute);
      }
      r := InboxView(emails.value, creds.emailAddress, page, totalPages);
    }

    /** `/view/<id>`: shows one message; on failure goes back to the inbox and keeps the credentials. */
    method ViewEmail(id: string, server: Option<Mailbox>, dec: Decoders) returns (r: Response)
      ensures credentials.None? ==> r == Redirect(LoginRoute)
      ensures credentials.Some? && server.Some? && DetailOf(server.value, id, dec).Some? ==>
        r == MessageView(DetailOf(server.value, id, dec).value)
      ensures credentials.Some? && !(server.Some? && DetailOf(server.value, id, dec).Some?) ==>
        r == Redirect(InboxRoute)
    {
      if credentials.None? {
        return Redirect(LoginRoute);
      }
      if server.None? {
        return Redirect(InboxRoute);
      }
      var fetched := server.value.fetchMessage(id);
      if fetched.None? {
        return Redirect(InboxRoute);
      }
      var h := fetched.value.headers;
      var subject := HeaderText(h.subject, dec);
      var sender := HeaderText(h.from, dec);
      if subject.None? || sender.None? {
        return Redirect(InboxRoute);
      }
      var date := FormatDateToJst(h.date, dec.parseDate);
      var body := GetEmailBody(fetched.value.message, dec.codec);
      if body.None? {
        return Redirect(InboxRoute);
      }
      r := MessageView(Detail(subject.value, sender.value, date, body.value));
    }

    /** `/logout`: removes the credentials and goes to the login page. */
    method Logout() returns (r: Response)
      requires Valid()
      modifies this
      ensures Valid()
      ensures credentials == Step(old(credentials), LoggedOut) && r == Redirect(LoginRoute)
    {
      credentials := None;
      r := Redirect(LoginRoute);
    }
  }
}

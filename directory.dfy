/**
  The table of supported mail providers (IMAP_SERVERS) and the way the login
  form turns an e-mail address into a provider domain (`address.split('@')[1]`).
 */
module Directory {
  import opened Wrappers

  /** The fixed domain-to-host table, looked up case-sensitively. */
  const ImapServers: map<string, string> := map[
    "gmail.com" := "imap.gmail.com",
    "outlook.com" := "outlook.office365.com",
    "hotmail.com" := "outlook.office365.com",
    "live.com" := "outlook.office365.com",
    "yahoo.co.jp" := "imap.mail.yahoo.co.jp",
    "icloud.com" := "imap.mail.me.com",
    "me.com" := "imap.mail.me.com"
  ]

  /** The seven domains the table knows. */
  const SupportedDomains: set<string> :=
    {"gmail.com", "outlook.com", "hotmail.com", "live.com", "yahoo.co.jp", "icloud.com", "me.com"}

  /** Glues pieces back together with `sep` between consecutive pieces (Python's `sep.join`). */
  function Join(parts: seq<string>, sep: char): string
    requires |parts| >= 1
  {
    if |parts| == 1 then parts[0] else parts[0] + [sep] + Join(parts[1..], sep)
  }

  /**
    Python's `s.split(sep)` for a one-character separator: the pieces between
    successive separators, so there is always at least one piece and a piece
    never contains the separator.
   */
  function Split(s: string, sep: char): (parts: seq<string>)
    ensures |parts| >= 1
    ensures forall i | 0 <= i < |parts| :: sep !in parts[i]
    ensures Join(parts, sep) == s
    ensures |parts| == 1 <==> sep !in s
  {
    if |s| == 0 then [""]
    else
      var rest := Split(s[1..], sep);
      if s[0] == sep then
        assert s == [sep] + s[1..];
        [""] + rest
      else
        var parts := [[s[0]] + rest[0]] + rest[1..];
        assert parts[1..] == rest[1..];
        assert |rest| > 1 ==> rest == [rest[0]] + rest[1..] && Join(rest, sep) == rest[0] + [sep] + Join(rest[1..], sep);
        assert s == [s[0]] + s[1..];
        parts
  }

  /**
    The domain part of an address as the login route computes it: element 1 of
    `split('@')`, or None when the split has a single piece (IndexError).
   */
  function DomainOf(address: string): (d: Option<string>)
    ensures d.None? <==> '@' !in address
    ensures d.Some? ==> '@' !in d.value
  {
    var parts := Split(address, '@');
    if |parts| >= 2 then Some(parts[1]) else None
  }

  /** `IMAP_SERVERS.get(domain)`; a missing domain (None) is never a key. */
  function Lookup(domain: Option<string>): (host: Option<string>)
    ensures host == Some("imap.gmail.com") <==> domain == Some("gmail.com")
    ensures host == Some("outlook.office365.com") <==>
      domain == Some("outlook.com") || domain == Some("hotmail.com") || domain == Some("live.com")
    ensures host == Some("imap.mail.yahoo.co.jp") <==> domain == Some("yahoo.co.jp")
    ensures host == Some("imap.mail.me.com") <==> domain == Some("icloud.com") || domain == Some("me.com")
    ensures host.None? <==> domain.None? || domain.value !in SupportedDomains
  {
    match domain
    case None => None
    case Some(d) => if d in ImapServers then Some(ImapServers[d]) else None
  }

  /** The provider host for an address, the composition the login route performs. */
  function HostFor(address: string): (host: Option<string>)
    ensures host.Some? <==> DomainOf(address).Some? && DomainOf(address).value in SupportedDomains
  {
    Lookup(DomainOf(address))
  }

  /** The first piece of a split is the longest separator-free prefix of the input. */
  lemma {:induction false} SplitHead(s: string, sep: char)
    ensures var h := Split(s, sep)[0];
      h <= s && sep !in h && (|h| == |s| || s[|h|] == sep)
  {
    if |s| > 0 && s[0] != sep {
      SplitHead(s[1..], sep);
    }
  }

  /** An address without '@' has no domain. */
  lemma NoAtNoDomain(address: string)
    requires '@' !in address
    ensures DomainOf(address) == None
  {
  }

  /**
    When `k` is the position of the first '@', the domain is the longest
    '@'-free text right after it: everything up to the second '@' or the end.
   */
  lemma {:induction false} DomainBetweenFirstTwoAts(address: string, k: nat)
    requires k < |address| && address[k] == '@' && '@' !in address[..k]
    ensures DomainOf(address).Some?
    ensures var d := DomainOf(address).value;
      '@' !in d && d <= address[k + 1..] &&
      (k + 1 + |d| == |address| || address[k + 1 + |d|] == '@')
  {
    if k == 0 {
      SplitHead(address[1..], '@');
    } else {
      assert address[0] != '@' by { assert address[0] == address[..k][0]; }
      var tail := address[1..];
      assert tail[..k - 1] == address[1..k];
      assert address[..k][1..] == tail[..k - 1];
      DomainBetweenFirstTwoAts(tail, k - 1);
      assert DomainOf(address) == DomainOf(tail);
      assert address[k + 1..] == tail[k..];
    }
  }

  /** The host a supported address maps to is one of the table's hosts. */
  lemma HostForIsTableHost(address: string)
    requires HostFor(address).Some?
    ensures DomainOf(address).Some? && DomainOf(address).value in ImapServers
    ensures HostFor(address).value == ImapServers[DomainOf(address).value]
  {
  }

  /** Two maximal '@'-free prefixes of the same text are equal. */
  lemma LongestAtFreePrefix(after: string, d: string, e: string)
    requires '@' !in d && d <= after && (|d| == |after| || after[|d|] == '@')
    requires '@' !in e && e <= after && (|e| == |after| || after[|e|] == '@')
    ensures d == e
  {
  }

  /** An address `local@domain` with no other '@' has exactly that domain. */
  lemma DomainOfSimpleAddress(local: string, domain: string)
    requires '@' !in local && '@' !in domain
    ensures DomainOf(local + "@" + domain) == Some(domain)
  {
    var a := local + "@" + domain;
    assert a[..|local|] == local;
    DomainBetweenFirstTwoAts(a, |local|);
    assert a[|local| + 1..] == domain;
    LongestAtFreePrefix(domain, DomainOf(a).value, domain);
  }

  /** Every table domain reaches its host, whatever the local part. */
  lemma SupportedAddress(local: string, domain: string)
    requires '@' !in local && domain in SupportedDomains
    ensures HostFor(local + "@" + domain) == Some(ImapServers[domain])
  {
    DomainOfSimpleAddress(local, domain);
  }

  /** The supported domains are exactly the keys of the table. */
  lemma SupportedDomainsAreTableKeys()
    ensures SupportedDomains == ImapServers.Keys
  {
  }

  /** The lookup is case-sensitive: a capitalised table domain is unsupported. */
  lemma CaseSensitive(local: string)
    requires '@' !in local
    ensures HostFor(local + "@" + "Gmail.com") == None
  {
    DomainOfSimpleAddress(local, "Gmail.com");
  }

  /** An address ending in '@' has the empty domain, which is unsupported. */
  lemma EmptyDomain(local: string)
    requires '@' !in local
    ensures DomainOf(local + "@") == Some("") && HostFor(local + "@") == None
  {
    assert local + "@" == local + "@" + "";
    DomainOfSimpleAddress(local, "");
  }

  /** Text after a second '@' is not part of the domain. */
  lemma SecondAtIgnored(local: string, domain: string, rest: string)
    requires '@' !in local && '@' !in domain
    ensures DomainOf(local + "@" + domain + "@" + rest) == Some(domain)
  {
    var a := local + "@" + domain + "@" + rest;
    assert a[..|local|] == local;
    DomainBetweenFirstTwoAts(a, |local|);
    var d := DomainOf(a).value;
    assert a[|local| + 1..] == domain + "@" + rest;
    var after := domain + "@" + rest;
    assert a[|local| + 1..] == after;
    assert after[..|domain|] == domain;
    LongestAtFreePrefix(after, DomainOf(a).value, domain);
  }
}

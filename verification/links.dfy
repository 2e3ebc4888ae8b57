/** Share-link recognition: the host part of a URL as Python's
    `urllib.parse.urlsplit` extracts it, the plain suffix test against the
    fixed domain list, whitespace splitting of a message, and the choice of
    the first acceptable word in `handle_message`. */
module Links {
  import opened Common

  const ValidDomains: seq<string> := [
    "terabox.com", "nephobox.com", "4funbox.com", "mirrobox.com",
    "momerybox.com", "teraboxapp.com", "1024tera.com",
    "terabox.app", "gibibox.com", "goaibox.com", "terasharelink.com",
    "teraboxlink.com", "terafileshare.com"
  ]

  predicate EndsWith(s: string, suffix: string)
  {
    |suffix| <= |s| && s[|s| - |suffix|..] == suffix
  }

  // ---------------------------------------------------------------------
  // urlsplit, as far as the network location is concerned
  // ---------------------------------------------------------------------

  /** WHATWG "C0 control or space": stripped from the front of the URL. */
  predicate IsC0OrSpace(c: char)
  {
    c <= ' '
  }

  /** Tab, carriage return and line feed are deleted anywhere in the URL. */
  predicate IsUnsafe(c: char)
  {
    c == '\t' || c == '\r' || c == '\n'
  }

  function LStripC0(s: string): (r: string)
    ensures |r| <= |s| && r == s[|s| - |r|..]
    ensures r == [] || !IsC0OrSpace(r[0])
  {
    if s != [] && IsC0OrSpace(s[0]) then LStripC0(s[1..]) else s
  }

  function RemoveUnsafe(s: string): (r: string)
    ensures forall i :: 0 <= i < |r| ==> !IsUnsafe(r[i])
    ensures (forall i :: 0 <= i < |s| ==> !IsUnsafe(s[i])) ==> r == s
  {
    if s == [] then []
    else (if IsUnsafe(s[0]) then [] else [s[0]]) + RemoveUnsafe(s[1..])
  }

  predicate IsAsciiLetter(c: char)
  {
    'a' <= c <= 'z' || 'A' <= c <= 'Z'
  }

  predicate IsSchemeChar(c: char)
  {
    IsAsciiLetter(c) || '0' <= c <= '9' || c == '+' || c == '-' || c == '.'
  }

  /** Index of the first occurrence of `c` in `s`. */
  function IndexOf(s: string, c: char): (r: Option<nat>)
    ensures r.None? ==> forall i :: 0 <= i < |s| ==> s[i] != c
    ensures r.Some? ==> (r.value < |s| && s[r.value] == c &&
      forall i :: 0 <= i < r.value ==> s[i] != c)
  {
    if s == [] then None
    else if s[0] == c then Some(0)
    else match IndexOf(s[1..], c)
      case None => None
      case Some(i) => Some(i + 1)
  }

  /** What remains once a scheme is removed: the text up to the first colon
      is a scheme when it is non-empty, starts with an ASCII letter and
      consists of scheme characters only. */
  function AfterScheme(url: string): string
  {
    match IndexOf(url, ':')
    case None => url
    case Some(i) =>
      if i > 0 && IsAsciiLetter(url[0]) && forall j :: 0 <= j < i ==> IsSchemeChar(url[j])
      then url[i + 1..]
      else url
  }

  predicate IsAuthorityEnd(c: char)
  {
    c == '/' || c == '?' || c == '#'
  }

  /** Length of the authority: up to the first '/', '?' or '#'. */
  function AuthorityLength(s: string): (n: nat)
    ensures n <= |s|
    ensures forall i :: 0 <= i < n ==> !IsAuthorityEnd(s[i])
    ensures n < |s| ==> IsAuthorityEnd(s[n])
  {
    if s == [] || IsAuthorityEnd(s[0]) then 0 else 1 + AuthorityLength(s[1..])
  }

  /** The URL with leading controls stripped, tab/CR/LF removed and the
      scheme taken off: what `urlsplit` inspects for "//". */
  function SchemeRest(url: string): string
  {
    AfterScheme(RemoveUnsafe(LStripC0(url)))
  }

  /** `urlparse(url).netloc`: the authority after "//", or empty when the
      remainder does not start with "//". */
  function Netloc(url: string): string
  {
    var rest := SchemeRest(url);
    if |rest| >= 2 && rest[..2] == "//" then
      var tail := rest[2..];
      tail[..AuthorityLength(tail)]
    else ""
  }

  /** A host is accepted exactly when it ends with a listed domain. */
  predicate AcceptedHost(host: string)
  {
    exists k :: 0 <= k < |ValidDomains| && EndsWith(host, ValidDomains[k])
  }

  /** The verdict of `is_valid_url` when `urlparse` returns: the network
      location ends with one of the listed domains, as plain text. */
  predicate IsValidUrl(url: string)
  {
    AcceptedHost(Netloc(url))
  }

  // ---------------------------------------------------------------------
  // The ValueError paths of urlsplit
  // ---------------------------------------------------------------------

  /** The tables `urlsplit` consults when it validates a network location
      and that this model does not carry: Unicode NFKC normalisation, and
      the `ipaddress` parser (or the IPvFuture pattern) applied to a
      bracketed host. */
  datatype HostTables = HostTables(nfkc: string -> string, bracketedHostValid: string -> bool)

  /** `str.isascii`. */
  predicate IsAscii(s: string)
  {
    forall i :: 0 <= i < |s| ==> s[i] < '\U{80}'
  }

  /** One opening bracket without a closing one, or the reverse. */
  predicate UnbalancedBrackets(netloc: string)
  {
    ('[' in netloc && ']' !in netloc) || (']' in netloc && '[' !in netloc)
  }

  /** `s.partition(c)` without the separator: the text before the first
      `c` and the text after it, or all of `s` and nothing. */
  function Partition(s: string, c: char): (r: (string, string))
    ensures c !in r.0
    ensures c in s ==> r.0 + [c] + r.1 == s
    ensures c !in s ==> r == (s, [])
  {
    match IndexOf(s, c)
    case None => (s, [])
    case Some(i) =>
      assert s == s[..i] + [c] + s[i + 1..];
      (s[..i], s[i + 1..])
  }

  /** `s.rpartition(c)[2]`: the text after the last `c`, or all of `s`. */
  function AfterLast(s: string, c: char): (r: string)
    ensures c !in r
    ensures |r| <= |s| && r == s[|s| - |r|..]
    ensures |r| < |s| ==> s[|s| - |r| - 1] == c
    decreases |s|
  {
    match IndexOf(s, c)
    case None => s
    case Some(i) =>
      var r := AfterLast(s[i + 1..], c);
      assert s[i + 1..][|s[i + 1..]| - |r|..] == s[|s| - |r|..];
      r
  }

  /** `_check_bracketed_netloc` (CPython 3.12.9 and later), applied when
      the network location holds both brackets. After the last '@', text
      before the '[' is refused, and so is text after the ']' that does
      not start a port with ':'. The host between the brackets, or the
      host before the first ':' when the brackets all precede the '@', then
      goes to the address check. */
  predicate BracketedNetlocRejected(netloc: string, tables: HostTables)
  {
    var hostPort := AfterLast(netloc, '@');
    if '[' in hostPort then
      var (before, bracketed) := Partition(hostPort, '[');
      var (hostname, port) := Partition(bracketed, ']');
      before != [] || (port != [] && port[0] != ':') || !tables.bracketedHostValid(hostname)
    else
      !tables.bracketedHostValid(Partition(hostPort, ':').0)
  }

  predicate IsIgnoredSeparator(c: char)
  {
    c == '@' || c == ':' || c == '#' || c == '?'
  }

  predicate IsForbiddenAfterNfkc(c: char)
  {
    c == '/' || c == '?' || c == '#' || c == '@' || c == ':'
  }

  /** The network location with '@', ':', '#' and '?' deleted. */
  function DropSeparators(s: string): string
  {
    if s == [] then []
    else (if IsIgnoredSeparator(s[0]) then [] else [s[0]]) + DropSeparators(s[1..])
  }

  /** The NFKC check: a non-ASCII network location that normalisation
      changes, and whose normal form contains a delimiter, is refused. */
  predicate NfkcRejects(netloc: string, tables: HostTables)
  {
    netloc != [] && !IsAscii(netloc) &&
    var n := DropSeparators(netloc);
    var normal := tables.nfkc(n);
    normal != n && exists i :: 0 <= i < |normal| && IsForbiddenAfterNfkc(normal[i])
  }

  /** The network locations on which `urlsplit` raises `ValueError`. */
  predicate NetlocRejected(netloc: string, tables: HostTables)
  {
    UnbalancedBrackets(netloc) ||
    ('[' in netloc && ']' in netloc && BracketedNetlocRejected(netloc, tables)) ||
    NfkcRejects(netloc, tables)
  }

  /** The exception `urlsplit` raises. */
  datatype UrlError = InvalidNetloc

  /** `is_valid_url`, with the `ValueError` of `urlparse` as a failure. */
  function CheckUrl(url: string, tables: HostTables): Result<bool, UrlError>
  {
    if NetlocRejected(Netloc(url), tables) then Failure(InvalidNetloc)
    else Success(IsValidUrl(url))
  }

  /** Characters that keep a network location clear of every `ValueError`
      path: ASCII, and no square bracket. */
  predicate IsPlainChar(c: char)
  {
    c < '\U{80}' && c != '[' && c != ']'
  }

  predicate PlainText(s: string)
  {
    forall i :: 0 <= i < |s| ==> IsPlainChar(s[i])
  }

  /** A plain network location is never refused, whatever the tables say. */
  lemma PlainNeverRejected(netloc: string, tables: HostTables)
    requires PlainText(netloc)
    ensures !NetlocRejected(netloc, tables)
  {
    assert IsAscii(netloc);
    assert '[' !in netloc && ']' !in netloc;
  }

  /** For a network location `before[inner]after` without '@', the layout
      rule and the address check decide together: text before '[', or
      text after ']' that is not a port, is refused whatever the address
      check says. So "[::1]terabox.com" is refused even when "::1" is a
      valid address, and "[::1]:443" only when "::1" is not. */
  lemma {:induction false} BracketLayout(before: string, inner: string, after: string, tables: HostTables)
    requires '@' !in before && '@' !in inner && '@' !in after
    requires '[' !in before && ']' !in inner
    ensures NetlocRejected(before + "[" + inner + "]" + after, tables) <==>
      (before != [] || (after != [] && after[0] != ':') ||
       !tables.bracketedHostValid(inner) ||
       NfkcRejects(before + "[" + inner + "]" + after, tables))
  {
    var netloc := before + "[" + inner + "]" + after;
    var tail := inner + "]" + after;
    assert netloc == before + ['['] + tail;
    assert tail == inner + [']'] + after;
    assert '@' !in netloc;
    assert AfterLast(netloc, '@') == netloc;
    assert netloc[|before|] == '[' && netloc[|before| + 1 + |inner|] == ']';
    PartitionAt(before, '[', tail);
    PartitionAt(inner, ']', after);
  }

  /** Partitioning at the first `c` splits where `c` first occurs. */
  lemma {:induction false} PartitionAt(p: string, c: char, x: string)
    requires c !in p
    ensures Partition(p + [c] + x, c) == (p, x)
  {
    IndexOfAfter(p, c, x);
    assert (p + [c] + x)[..|p|] == p;
    assert (p + [c] + x)[|p| + 1..] == x;
  }

  /** An https link whose host puts text around a bracketed address makes
      `urlparse` raise, so the link test never accepts it, even when the
      text after ']' ends with a listed domain. */
  lemma {:induction false} TextAroundBracketsRaises(before: string, inner: string, after: string,
                                                    rest: string, tables: HostTables)
    requires '@' !in before && '@' !in inner && '@' !in after
    requires '[' !in before && ']' !in inner
    requires before != [] || (after != [] && after[0] != ':')
    requires NoAuthorityEnd(before + "[" + inner + "]" + after)
    requires Clean(before + "[" + inner + "]" + after)
    requires Clean(rest) && (rest == [] || IsAuthorityEnd(rest[0]))
    ensures CheckUrl("https://" + (before + "[" + inner + "]" + after) + rest, tables) ==
      Failure(InvalidNetloc)
  {
    BracketLayout(before, inner, after, tables);
    NetlocOfHttps(before + "[" + inner + "]" + after, rest, tables);
  }

  /** Every listed domain is at least eleven characters long. */
  lemma DomainLengths()
    ensures forall k :: 0 <= k < |ValidDomains| ==> |ValidDomains[k]| >= 11
  {
  }

  /** Every listed domain ends in ".com" or ".app", so in 'm' or 'p'. */
  lemma DomainLastChars()
    ensures forall k :: 0 <= k < |ValidDomains| ==> ValidDomains[k][|ValidDomains[k]| - 1] in "mp"
  {
  }

  /** No eleven-character domain starts with 'e'. */
  lemma DomainFirstChars()
    ensures forall k :: 0 <= k < |ValidDomains| && |ValidDomains[k]| == 11 ==> ValidDomains[k][0] != 'e'
  {
  }

  /** Domains are plain host text: no delimiter, no tab, CR or LF, and
      nothing that could make `urlsplit` raise. */
  lemma DomainsAreHostText()
    ensures forall k :: 0 <= k < |ValidDomains| ==>
      NoAuthorityEnd(ValidDomains[k]) && Clean(ValidDomains[k]) && PlainText(ValidDomains[k])
  {
    DomainChars();
  }

  /** Lower-case letters, digits and dots. */
  predicate IsDomainChar(c: char)
  {
    'a' <= c <= 'z' || '0' <= c <= '9' || c == '.'
  }

  lemma DomainChars()
    ensures forall k, i :: 0 <= k < |ValidDomains| && 0 <= i < |ValidDomains[k]| ==>
      IsDomainChar(ValidDomains[k][i])
  {
    DomainCharsFirst();
    DomainCharsMiddle();
    DomainCharsLast();
  }

  /** The same fact for the first five, the next four and the last four
      domains, so that each obligation stays small. */
  lemma DomainCharsFirst()
    ensures forall k, i :: 0 <= k < 5 && 0 <= i < |ValidDomains[k]| ==> IsDomainChar(ValidDomains[k][i])
  {
  }

  lemma DomainCharsMiddle()
    ensures forall k, i :: 5 <= k < 9 && 0 <= i < |ValidDomains[k]| ==> IsDomainChar(ValidDomains[k][i])
  {
  }

  lemma DomainCharsLast()
    ensures forall k, i :: 9 <= k < 13 && 0 <= i < |ValidDomains[k]| ==> IsDomainChar(ValidDomains[k][i])
  {
  }

  lemma EndsWithLast(s: string, d: string)
    ensures EndsWith(s, d) && |d| > 0 ==> s[|s| - 1] == d[|d| - 1]
  {
    if EndsWith(s, d) && |d| > 0 {
      assert s[|s| - |d|..][|d| - 1] == s[|s| - 1];
    }
  }

  // ---------------------------------------------------------------------
  // Properties of the link test
  // ---------------------------------------------------------------------

  predicate NoAuthorityEnd(s: string)
  {
    forall i :: 0 <= i < |s| ==> !IsAuthorityEnd(s[i])
  }

  predicate Clean(s: string)
  {
    forall i :: 0 <= i < |s| ==> !IsUnsafe(s[i])
  }

  /** The network location is empty unless the inspected text starts with
      "//"; then it is the longest run after "//" free of '/', '?' and '#'. */
  lemma NetlocIsAuthority(url: string)
    ensures var rest := SchemeRest(url);
      !(|rest| >= 2 && rest[..2] == "//") ==> Netloc(url) == ""
    ensures var rest := SchemeRest(url);
      var n := Netloc(url);
      |rest| >= 2 && rest[..2] == "//" ==>
        NoAuthorityEnd(n) && n <= rest[2..] &&
        (2 + |n| == |rest| || IsAuthorityEnd(rest[2 + |n|]))
  {
  }

  lemma {:induction false} CleanAppend(a: string, b: string)
    requires Clean(a) && Clean(b)
    ensures Clean(a + b)
  {
    forall i | 0 <= i < |a + b| ensures !IsUnsafe((a + b)[i]) {
      if i >= |a| { assert (a + b)[i] == b[i - |a|]; }
    }
  }

  /** The first colon is found after a colon-free prefix. */
  lemma {:induction false} IndexOfAfter(p: string, c: char, x: string)
    requires forall i :: 0 <= i < |p| ==> p[i] != c
    ensures IndexOf(p + [c] + x, c) == Some(|p|)
    decreases |p|
  {
    if p != [] {
      assert (p + [c] + x)[1..] == p[1..] + [c] + x;
      IndexOfAfter(p[1..], c, x);
    }
  }

  /** "https" is taken as the scheme and removed with its colon. */
  lemma {:induction false} AfterHttpsScheme(x: string)
    ensures AfterScheme("https:" + x) == x
  {
    assert "https:" + x == "https" + [':'] + x;
    IndexOfAfter("https", ':', x);
    assert forall j :: 0 <= j < 5 ==> IsSchemeChar("https"[j]);
    assert ("https:" + x)[6..] == x;
  }

  lemma LStripKeeps(url: string)
    requires url != [] && !IsC0OrSpace(url[0])
    ensures LStripC0(url) == url
  {
  }

  /** Of "https://" followed by clean text, `urlsplit` keeps "//" and the
      text after the scheme. */
  lemma {:induction false} SchemeRestOfHttps(tail: string)
    requires Clean(tail)
    ensures SchemeRest("https://" + tail) == "//" + tail
  {
    var url := "https://" + tail;
    assert url[0] == 'h';
    LStripKeeps(url);
    CleanAppend("https://", tail);
    assert RemoveUnsafe(url) == url;
    assert url == "https:" + ("//" + tail);
    AfterHttpsScheme("//" + tail);
  }

  /** For an "https://" URL the network location is exactly the text between
      "//" and the first '/', '?' or '#'; `urlparse` returns it unless that
      text is refused, and a plain host is never refused. */
  lemma {:induction false} NetlocOfHttps(host: string, rest: string, tables: HostTables)
    requires NoAuthorityEnd(host) && Clean(host) && Clean(rest)
    requires rest == [] || IsAuthorityEnd(rest[0])
    ensures Netloc("https://" + host + rest) == host
    ensures CheckUrl("https://" + host + rest, tables).Failure? <==> NetlocRejected(host, tables)
    ensures PlainText(host) ==> CheckUrl("https://" + host + rest, tables).Success?
  {
    NetlocOfHttpsText(host, rest);
    if PlainText(host) {
      PlainNeverRejected(host, tables);
    }
  }

  lemma {:induction false} NetlocOfHttpsText(host: string, rest: string)
    requires NoAuthorityEnd(host) && Clean(host) && Clean(rest)
    requires rest == [] || IsAuthorityEnd(rest[0])
    ensures Netloc("https://" + host + rest) == host
  {
    var tail := host + rest;
    CleanAppend(host, rest);
    assert "https://" + host + rest == "https://" + tail;
    SchemeRestOfHttps(tail);
    var after := "//" + tail;
    assert after[..2] == "//" && after[2..] == tail;
    AuthorityPrefix(host, rest);
  }

  lemma {:induction false} AuthorityPrefix(host: string, rest: string)
    requires NoAuthorityEnd(host)
    requires rest == [] || IsAuthorityEnd(rest[0])
    ensures AuthorityLength(host + rest) == |host|
    ensures (host + rest)[..|host|] == host
    decreases |host|
  {
    if host == [] {
      assert host + rest == rest;
    } else {
      assert (host + rest)[1..] == host[1..] + rest;
      AuthorityPrefix(host[1..], rest);
    }
  }

  /** The link test on an "https://" URL depends only on its host, and is
      a plain suffix test: any text in front of a listed domain is accepted,
      with or without a separating dot. */
  lemma {:induction false} HttpsLinkAccepted(host: string, rest: string, tables: HostTables)
    requires NoAuthorityEnd(host) && Clean(host) && Clean(rest)
    requires rest == [] || IsAuthorityEnd(rest[0])
    ensures IsValidUrl("https://" + host + rest) <==> AcceptedHost(host)
    ensures CheckUrl("https://" + host + rest, tables) ==
      if NetlocRejected(host, tables) then Failure(InvalidNetloc) else Success(AcceptedHost(host))
  {
    NetlocOfHttpsText(host, rest);
  }

  /** Prefixing a listed domain with any host text keeps it accepted: the
      test has no label boundary, so "notterabox.com" passes. */
  lemma {:induction false} AnyPrefixAccepted(prefix: string, k: nat, rest: string, tables: HostTables)
    requires k < |ValidDomains|
    requires NoAuthorityEnd(prefix) && Clean(prefix) && Clean(rest)
    requires rest == [] || IsAuthorityEnd(rest[0])
    ensures IsValidUrl("https://" + (prefix + ValidDomains[k]) + rest)
    ensures CheckUrl("https://" + (prefix + ValidDomains[k]) + rest, tables) ==
      if NetlocRejected(prefix + ValidDomains[k], tables) then Failure(InvalidNetloc) else Success(true)
    ensures PlainText(prefix) ==> CheckUrl("https://" + (prefix + ValidDomains[k]) + rest, tables) == Success(true)
  {
    var d := ValidDomains[k];
    var host := prefix + d;
    DomainsAreHostText();
    NoAuthorityEndAppend(prefix, d);
    CleanAppend(prefix, d);
    EndsWithAppend(prefix, d);
    HttpsLinkAccepted(host, rest, tables);
    if PlainText(prefix) {
      PlainAppend(prefix, d);
      PlainNeverRejected(host, tables);
    }
  }

  lemma {:induction false} PlainAppend(a: string, b: string)
    requires PlainText(a) && PlainText(b)
    ensures PlainText(a + b)
  {
    forall i | 0 <= i < |a + b| ensures IsPlainChar((a + b)[i]) {
      if i >= |a| { assert (a + b)[i] == b[i - |a|]; }
    }
  }

  lemma NoAuthorityEndAppend(a: string, b: string)
    requires NoAuthorityEnd(a) && NoAuthorityEnd(b)
    ensures NoAuthorityEnd(a + b)
  {
    forall i | 0 <= i < |a + b| ensures !IsAuthorityEnd((a + b)[i]) {
      if i >= |a| { assert (a + b)[i] == b[i - |a|]; }
    }
  }

  lemma EndsWithAppend(a: string, d: string)
    ensures EndsWith(a + d, d)
  {
    assert (a + d)[|a + d| - |d|..] == d;
  }

  /** Without any '/', there is no "//" authority, so the network location
      is empty and nothing is accepted: a bare host such as
      "terabox.com" is rejected. */
  lemma NoSlashRejected(url: string, tables: HostTables)
    requires forall i :: 0 <= i < |url| ==> url[i] != '/'
    ensures Netloc(url) == ""
    ensures CheckUrl(url, tables) == Success(false)
  {
    NoSlashNoNetloc(url);
    EmptyNetlocRejected(url, tables);
  }

  /** An empty network location is never refused and never accepted. */
  lemma EmptyNetlocRejected(url: string, tables: HostTables)
    requires Netloc(url) == ""
    ensures CheckUrl(url, tables) == Success(false)
  {
    DomainLengths();
    PlainNeverRejected("", tables);
  }

  lemma NoSlashNoNetloc(url: string)
    requires forall i :: 0 <= i < |url| ==> url[i] != '/'
    ensures Netloc(url) == ""
  {
    var rest := SchemeRest(url);
    SlashFree(url);
    if |rest| >= 2 {
      assert rest[..2][0] == rest[0] != '/';
    }
  }

  /** No step of `urlsplit` before the authority test introduces a '/'. */
  lemma {:induction false} SlashFree(url: string)
    requires forall i :: 0 <= i < |url| ==> url[i] != '/'
    ensures forall i :: 0 <= i < |SchemeRest(url)| ==> SchemeRest(url)[i] != '/'
  {
    var a := LStripC0(url);
    RemoveUnsafeSubset(a, '/');
  }

  lemma {:induction false} RemoveUnsafeSubset(s: string, c: char)
    requires forall i :: 0 <= i < |s| ==> s[i] != c
    ensures forall i :: 0 <= i < |RemoveUnsafe(s)| ==> RemoveUnsafe(s)[i] != c
    decreases |s|
  {
    if s != [] {
      RemoveUnsafeSubset(s[1..], c);
      var head := if IsUnsafe(s[0]) then [] else [s[0]];
      assert RemoveUnsafe(s) == head + RemoveUnsafe(s[1..]);
    }
  }

  /** An explicit port is part of the network location, so a listed domain
      followed by a numeric port is rejected, whatever path follows. */
  lemma {:induction false} PortRejected(k: nat, port: string, rest: string, tables: HostTables)
    requires k < |ValidDomains|
    requires |port| > 0 && forall i :: 0 <= i < |port| ==> '0' <= port[i] <= '9'
    requires Clean(rest) && (rest == [] || IsAuthorityEnd(rest[0]))
    ensures CheckUrl("https://" + (ValidDomains[k] + ":" + port) + rest, tables) == Success(false)
  {
    var host := ValidDomains[k] + ":" + port;
    PortHostText(k, port);
    DigitEndRejected(host);
    PlainNeverRejected(host, tables);
    HttpsLinkAccepted(host, rest, tables);
  }

  lemma {:induction false} PortHostText(k: nat, port: string)
    requires k < |ValidDomains|
    requires |port| > 0 && forall i :: 0 <= i < |port| ==> '0' <= port[i] <= '9'
    ensures var host := ValidDomains[k] + ":" + port;
      NoAuthorityEnd(host) && Clean(host) && PlainText(host) && '0' <= host[|host| - 1] <= '9'
  {
    var suffix := ":" + port;
    forall i | 0 <= i < |suffix|
      ensures !IsAuthorityEnd(suffix[i]) && !IsUnsafe(suffix[i]) && IsPlainChar(suffix[i])
    {
      if i > 0 { assert suffix[i] == port[i - 1]; }
    }
    DomainsAreHostText();
    NoAuthorityEndAppend(ValidDomains[k], suffix);
    CleanAppend(ValidDomains[k], suffix);
    PlainAppend(ValidDomains[k], suffix);
    assert ValidDomains[k] + ":" + port == ValidDomains[k] + suffix;
  }

  /** Every listed domain ends in a letter, so a host ending in a digit
      matches none of them. */
  lemma {:induction false} DigitEndRejected(host: string)
    requires |host| > 0 && '0' <= host[|host| - 1] <= '9'
    ensures !AcceptedHost(host)
  {
    DomainLastChars();
    forall j | 0 <= j < |ValidDomains| ensures !EndsWith(host, ValidDomains[j]) {
      EndsWithLast(host, ValidDomains[j]);
    }
  }

  // ---------------------------------------------------------------------
  // Message text and handle_message
  // ---------------------------------------------------------------------

  /** Characters Python's `str.split()` treats as separators. */
  predicate IsSpace(c: char)
  {
    c == ' ' || c == '\t' || c == '\n' || c == '\r' ||
    c == '\U{0b}' || c == '\U{0c}' ||
    '\U{1c}' <= c <= '\U{1f}' || c == '\U{85}' || c == '\U{a0}' ||
    c == '\U{1680}' || '\U{2000}' <= c <= '\U{200a}' ||
    c == '\U{2028}' || c == '\U{2029}' || c == '\U{202f}' ||
    c == '\U{205f}' || c == '\U{3000}'
  }

  predicate NoSpace(s: string)
  {
    forall i :: 0 <= i < |s| ==> !IsSpace(s[i])
  }

  /** Length of the leading run of non-separators. */
  function WordLength(s: string): (n: nat)
    ensures n <= |s|
    ensures NoSpace(s[..n])
    ensures n < |s| ==> IsSpace(s[n])
  {
    if s == [] || IsSpace(s[0]) then 0
    else
      var n := 1 + WordLength(s[1..]);
      assert s[..n] == [s[0]] + s[1..][..n - 1];
      n
  }

  /** `text.split()`: the maximal runs of non-separators, in order. */
  function Words(s: string): (ws: seq<string>)
    ensures forall k :: 0 <= k < |ws| ==> |ws[k]| > 0 && NoSpace(ws[k])
    decreases |s|
  {
    if s == [] then []
    else if IsSpace(s[0]) then Words(s[1..])
    else
      var n := WordLength(s);
      [s[..n]] + Words(s[n..])
  }

  function Concat(ws: seq<string>): string
  {
    if ws == [] then [] else ws[0] + Concat(ws[1..])
  }

  /** `s` with every separator deleted. */
  function Squeeze(s: string): string
  {
    if s == [] then []
    else (if IsSpace(s[0]) then [] else [s[0]]) + Squeeze(s[1..])
  }

  lemma {:induction false} SqueezeAppend(a: string, b: string)
    ensures Squeeze(a + b) == Squeeze(a) + Squeeze(b)
    decreases |a|
  {
    if a == [] {
      assert a + b == b;
    } else {
      assert (a + b)[1..] == a[1..] + b;
      SqueezeAppend(a[1..], b);
    }
  }

  lemma {:induction false} SqueezeWord(w: string)
    requires NoSpace(w)
    ensures Squeeze(w) == w
    decreases |w|
  {
    if w != [] {
      SqueezeWord(w[1..]);
    }
  }

  /** Splitting loses only the separators: the words, glued back together,
      are the message without its whitespace. */
  lemma {:induction false} WordsCoverText(s: string)
    ensures Concat(Words(s)) == Squeeze(s)
    decreases |s|
  {
    if s == [] {
    } else if IsSpace(s[0]) {
      WordsCoverText(s[1..]);
    } else {
      var n := WordLength(s);
      var ws := Words(s);
      assert ws == [s[..n]] + Words(s[n..]);
      assert ws[1..] == Words(s[n..]);
      WordsCoverText(s[n..]);
      assert s == s[..n] + s[n..];
      SqueezeAppend(s[..n], s[n..]);
      SqueezeWord(s[..n]);
    }
  }

  /** A separator ends the leading word. */
  lemma {:induction false} WordLengthAppend(a: string, c: char, b: string)
    requires IsSpace(c)
    ensures WordLength(a + [c] + b) == WordLength(a)
    decreases |a|
  {
    if a == [] {
      assert (a + [c] + b)[0] == c;
    } else if !IsSpace(a[0]) {
      assert (a + [c] + b)[1..] == a[1..] + [c] + b;
      WordLengthAppend(a[1..], c, b);
    }
  }

  /** A separator is a word boundary: the words of `a`, a separator and
      `b` are the words of `a` followed by the words of `b`, so no word
      ever spans a separator and none is lost or merged. */
  lemma {:induction false} WordsSplitAtSpace(a: string, c: char, b: string)
    requires IsSpace(c)
    ensures Words(a + [c] + b) == Words(a) + Words(b)
    decreases |a|
  {
    var s := a + [c] + b;
    if a == [] {
      assert s[0] == c && s[1..] == b;
    } else if IsSpace(a[0]) {
      assert s[1..] == a[1..] + [c] + b;
      WordsSplitAtSpace(a[1..], c, b);
    } else {
      var m := WordLength(a);
      WordLengthAppend(a, c, b);
      assert WordLength(s) == m;
      assert s[..m] == a[..m];
      assert s[m..] == a[m..] + [c] + b;
      WordsSplitAtSpace(a[m..], c, b);
    }
  }

  /** A single word with no surrounding whitespace splits into itself. */
  lemma {:induction false} SingleWord(s: string)
    requires |s| > 0 && NoSpace(s)
    ensures Words(s) == [s]
  {
    var n := WordLength(s);
    assert n == |s| by {
      if n < |s| { assert false; }
    }
    assert s[n..] == [];
    assert s[..n] == s;
  }

  /** What `handle_message` does with a text message. */
  datatype MessageOutcome =
    | JoinChannelPrompt
    | InvalidLinkReply
    | StartDownload(url: string)
      /** The link test raised on this word before any word was accepted;
          the exception leaves the handler, with no reply and no download. */
    | LinkCheckRaised(word: string)

  /** The link test applied to each word, in order. */
  function CheckEach(ws: seq<string>, tables: HostTables): (rs: seq<Result<bool, UrlError>>)
    ensures |rs| == |ws|
    ensures forall k :: 0 <= k < |ws| ==> rs[k] == CheckUrl(ws[k], tables)
  {
    seq(|ws|, k requires 0 <= k < |ws| => CheckUrl(ws[k], tables))
  }

  /** The search of `handle_message` over the words' link-test results:
      the first word the test accepts, or the first on which it raises,
      whichever comes first. */
  function Scan<E>(ws: seq<string>, rs: seq<Result<bool, E>>): (r: MessageOutcome)
    requires |rs| == |ws|
    ensures r != JoinChannelPrompt
    ensures r == InvalidLinkReply <==> forall k :: 0 <= k < |rs| ==> rs[k] == Success(false)
    ensures r.StartDownload? ==> exists k :: (0 <= k < |ws| &&
      ws[k] == r.url && rs[k] == Success(true) &&
      (forall j :: 0 <= j < k ==> rs[j] == Success(false)))
    ensures r.LinkCheckRaised? ==> exists k :: (0 <= k < |ws| &&
      ws[k] == r.word && rs[k].Failure? &&
      (forall j :: 0 <= j < k ==> rs[j] == Success(false)))
  {
    if ws == [] then InvalidLinkReply
    else match rs[0]
      case Failure(_) => LinkCheckRaised(ws[0])
      case Success(ok) =>
        if ok then StartDownload(ws[0])
        else
          var r := Scan(ws[1..], rs[1..]);
          assert forall k :: 1 <= k < |rs| ==> rs[k] == rs[1..][k - 1];
          assert forall k :: 1 <= k < |ws| ==> ws[k] == ws[1..][k - 1];
          r
  }

  /** The answer to a member's message, given its words: the first word
      the link test accepts starts the download, the first on which it
      raises aborts the handler, and when every word is rejected the reply
      is "invalid link". */
  function AnswerWords(ws: seq<string>, tables: HostTables): (r: MessageOutcome)
    ensures r != JoinChannelPrompt
    ensures r == InvalidLinkReply <==> forall k :: 0 <= k < |ws| ==> CheckUrl(ws[k], tables) == Success(false)
    ensures r.StartDownload? ==> exists k :: (0 <= k < |ws| &&
      ws[k] == r.url && CheckUrl(ws[k], tables) == Success(true) &&
      (forall j :: 0 <= j < k ==> CheckUrl(ws[j], tables) == Success(false)))
    ensures r.LinkCheckRaised? ==> exists k :: (0 <= k < |ws| &&
      ws[k] == r.word && CheckUrl(ws[k], tables).Failure? &&
      (forall j :: 0 <= j < k ==> CheckUrl(ws[j], tables) == Success(false)))
  {
    Scan(ws, CheckEach(ws, tables))
  }

  /** `handle_message`: non-members get the join prompt; a member's message
      is answered from its words, split as `str.split()` does. The link
      test sits outside the handler's `try`, so an exception it raises
      leaves the handler. The membership lookup is the `isMember`
      parameter. */
  function HandleMessage(isMember: bool, text: string, tables: HostTables): (r: MessageOutcome)
    ensures !isMember <==> r == JoinChannelPrompt
    ensures isMember ==> r == AnswerWords(Words(text), tables)
  {
    if !isMember then JoinChannelPrompt else AnswerWords(Words(text), tables)
  }

  /** A one-word message is answered by the link test on that word alone. */
  lemma {:induction false} SingleWordOutcome(w: string, tables: HostTables)
    requires |w| > 0 && NoSpace(w)
    ensures HandleMessage(true, w, tables) ==
      match CheckUrl(w, tables)
      case Failure(_) => LinkCheckRaised(w)
      case Success(ok) => if ok then StartDownload(w) else InvalidLinkReply
  {
    SingleWord(w);
  }

  /** An https link whose host is plain text ending with no listed domain
      is rejected, and `urlparse` does not raise on it. */
  lemma {:induction false} UnlistedHostRejected(host: string, rest: string, tables: HostTables)
    requires NoAuthorityEnd(host) && Clean(host) && PlainText(host) && !AcceptedHost(host)
    requires Clean(rest) && (rest == [] || IsAuthorityEnd(rest[0]))
    ensures CheckUrl("https://" + host + rest, tables) == Success(false)
  {
    HttpsLinkAccepted(host, rest, tables);
    PlainNeverRejected(host, tables);
  }

  /** "example.com" is plain host text and ends with no listed domain. */
  lemma ExampleHostUnlisted()
    ensures NoAuthorityEnd("example.com") && Clean("example.com") && PlainText("example.com")
    ensures NoSpace("example.com")
    ensures !AcceptedHost("example.com")
  {
    DomainLengths();
    DomainFirstChars();
  }

  /** A message that is one link to an unlisted host, such as
      "https://example.com/x", gets the invalid-link reply and starts no
      download. */
  lemma {:induction false} UnsupportedLinkRejected(host: string, rest: string, tables: HostTables)
    requires NoAuthorityEnd(host) && Clean(host) && PlainText(host) && !AcceptedHost(host)
    requires Clean(rest) && (rest == [] || IsAuthorityEnd(rest[0]))
    requires NoSpace(host) && NoSpace(rest)
    ensures HandleMessage(true, "https://" + host + rest, tables) == InvalidLinkReply
  {
    UnlistedHostRejected(host, rest, tables);
    HttpsNoSpace(host, rest);
    SingleWordOutcome("https://" + host + rest, tables);
  }

  lemma NoSpaceAppend(a: string, b: string)
    requires NoSpace(a) && NoSpace(b)
    ensures NoSpace(a + b)
  {
    assert forall i :: 0 <= i < |b| ==> (a + b)[|a| + i] == b[i];
  }

  lemma HttpsNoSpace(host: string, rest: string)
    requires NoSpace(host) && NoSpace(rest)
    ensures |"https://" + host + rest| > 0 && NoSpace("https://" + host + rest)
  {
    NoSpaceAppend("https://", host);
    NoSpaceAppend("https://" + host, rest);
  }

  // ---------------------------------------------------------------------
  // Plain messages never make the link test raise
  // ---------------------------------------------------------------------

  lemma {:induction false} RemoveUnsafePlain(s: string)
    requires PlainText(s)
    ensures PlainText(RemoveUnsafe(s))
    decreases |s|
  {
    if s != [] {
      RemoveUnsafePlain(s[1..]);
      var head := if IsUnsafe(s[0]) then [] else [s[0]];
      assert RemoveUnsafe(s) == head + RemoveUnsafe(s[1..]);
      PlainAppend(head, RemoveUnsafe(s[1..]));
    }
  }

  /** Every character of the network location comes from the URL. */
  lemma {:induction false} PlainNetloc(url: string)
    requires PlainText(url)
    ensures PlainText(Netloc(url))
  {
    var a := LStripC0(url);
    PlainSlice(url, |url| - |a|, |url|);
    RemoveUnsafePlain(a);
    var b := RemoveUnsafe(a);
    var i := AfterSchemeSuffix(b);
    PlainSlice(b, i, |b|);
    var rest := SchemeRest(url);
    assert rest == b[i..];
    if |rest| >= 2 && rest[..2] == "//" {
      var tail := rest[2..];
      PlainSlice(rest, 2, |rest|);
      PlainSlice(tail, 0, AuthorityLength(tail));
    }
  }

  lemma PlainSlice(s: string, i: nat, j: nat)
    requires PlainText(s) && i <= j <= |s|
    ensures PlainText(s[i..j])
  {
    assert forall k :: 0 <= k < j - i ==> s[i..j][k] == s[i + k];
  }

  lemma {:induction false} PlainWords(s: string)
    requires PlainText(s)
    ensures forall k :: 0 <= k < |Words(s)| ==> PlainText(Words(s)[k])
    decreases |s|
  {
    if s == [] {
    } else if IsSpace(s[0]) {
      PlainWords(s[1..]);
    } else {
      var n := WordLength(s);
      PlainWords(s[n..]);
      assert Words(s) == [s[..n]] + Words(s[n..]);
    }
  }

  /** On a message of plain text the link test never raises: the reply is
      decided by the suffix test alone, whatever the Unicode tables. */
  lemma {:induction false} PlainMessageNeverRaises(text: string, tables: HostTables)
    requires PlainText(text)
    ensures forall k :: 0 <= k < |Words(text)| ==>
      CheckUrl(Words(text)[k], tables) == Success(IsValidUrl(Words(text)[k]))
    ensures !HandleMessage(true, text, tables).LinkCheckRaised?
  {
    var ws := Words(text);
    PlainWords(text);
    forall k | 0 <= k < |ws| ensures CheckUrl(ws[k], tables) == Success(IsValidUrl(ws[k])) {
      PlainNetloc(ws[k]);
      PlainNeverRejected(Netloc(ws[k]), tables);
    }
  }

  /** A host that hides a delimiter behind a compatibility character, such
      as "a\uFF0Fterabox.com" with a fullwidth solidus that NFKC turns into
      '/', makes `urlparse` raise although the suffix test alone would
      accept it: the handler then aborts instead of starting a download. */
  lemma {:induction false} HiddenDelimiterRaises(prefix: string, k: nat, tables: HostTables)
    requires k < |ValidDomains|
    requires NoAuthorityEnd(prefix) && Clean(prefix) && NoSpace(prefix) && !IsAscii(prefix)
    requires forall i :: 0 <= i < |prefix| ==> !IsIgnoredSeparator(prefix[i])
    requires var normal := tables.nfkc(prefix + ValidDomains[k]);
      normal != prefix + ValidDomains[k] &&
      exists i :: 0 <= i < |normal| && IsForbiddenAfterNfkc(normal[i])
    ensures IsValidUrl("https://" + (prefix + ValidDomains[k]) + "")
    ensures CheckUrl("https://" + (prefix + ValidDomains[k]) + "", tables) == Failure(InvalidNetloc)
    ensures HandleMessage(true, "https://" + (prefix + ValidDomains[k]) + "", tables) ==
      LinkCheckRaised("https://" + (prefix + ValidDomains[k]) + "")
  {
    var d := ValidDomains[k];
    DomainsAreHostText();
    DomainChars();
    HiddenDelimiterHost(prefix, d, tables);
    AnyPrefixAccepted(prefix, k, "", tables);
    assert NoSpace(d) by {
      assert forall i :: 0 <= i < |d| ==> IsDomainChar(d[i]);
    }
    NoSpaceAppend(prefix, d);
    HttpsNoSpace(prefix + d, "");
    SingleWordOutcome("https://" + (prefix + d) + "", tables);
  }

  /** The NFKC test refuses such a host. */
  lemma {:induction false} HiddenDelimiterHost(prefix: string, d: string, tables: HostTables)
    requires forall i :: 0 <= i < |d| ==> IsDomainChar(d[i])
    requires !IsAscii(prefix)
    requires forall i :: 0 <= i < |prefix| ==> !IsIgnoredSeparator(prefix[i])
    requires var normal := tables.nfkc(prefix + d);
      normal != prefix + d &&
      exists i :: 0 <= i < |normal| && IsForbiddenAfterNfkc(normal[i])
    ensures NetlocRejected(prefix + d, tables)
  {
    var host := prefix + d;
    forall i | 0 <= i < |host| ensures !IsIgnoredSeparator(host[i]) {
      if i >= |prefix| {
        assert host[i] == d[i - |prefix|];
      }
    }
    DropSeparatorsKeeps(host);
    var j :| 0 <= j < |prefix| && !(prefix[j] < '\U{80}');
    assert host[j] == prefix[j];
    assert NfkcRejects(host, tables);
  }

  /** The example prefix meets the character conditions above. */
  lemma FullwidthSolidusPrefix()
    ensures var prefix := "a\U{ff0f}";
      NoAuthorityEnd(prefix) && Clean(prefix) && NoSpace(prefix) && !IsAscii(prefix) &&
      forall i :: 0 <= i < |prefix| ==> !IsIgnoredSeparator(prefix[i])
  {
    assert "a\U{ff0f}"[1] == '\U{ff0f}';
  }

  lemma {:induction false} DropSeparatorsKeeps(s: string)
    requires forall i :: 0 <= i < |s| ==> !IsIgnoredSeparator(s[i])
    ensures DropSeparators(s) == s
    decreases |s|
  {
    if s != [] {
      DropSeparatorsKeeps(s[1..]);
    }
  }

  // ---------------------------------------------------------------------
  // Links without a scheme
  // ---------------------------------------------------------------------

  /** No "//" anywhere in the text. */
  predicate NoDoubleSlash(s: string)
  {
    forall i :: 0 <= i < |s| - 1 ==> s[i] != '/' || s[i + 1] != '/'
  }

  /** The text `urlsplit` inspects for "//" is a suffix of a clean URL. */
  lemma {:induction false} SchemeRestSuffix(url: string) returns (off: nat)
    requires Clean(url)
    ensures off <= |url| && SchemeRest(url) == url[off..]
  {
    var a := LStripC0(url);
    assert forall i :: 0 <= i < |a| ==> a[i] == url[|url| - |a| + i];
    assert RemoveUnsafe(a) == a;
    var i := AfterSchemeSuffix(a);
    assert SchemeRest(url) == a[i..];
    off := |url| - |a| + i;
    assert a[i..] == url[off..];
  }

  /** Removing a scheme leaves a suffix. */
  lemma AfterSchemeSuffix(a: string) returns (i: nat)
    ensures i <= |a| && AfterScheme(a) == a[i..]
  {
    i := 0;
    match IndexOf(a, ':')
    case None =>
    case Some(c) =>
      if AfterScheme(a) != a {
        i := c + 1;
      }
  }

  /** A clean URL without "//" has no network location. */
  lemma {:induction false} NoDoubleSlashNoNetloc(url: string)
    requires Clean(url) && NoDoubleSlash(url)
    ensures Netloc(url) == ""
  {
    var off := SchemeRestSuffix(url);
    var rest := SchemeRest(url);
    if |rest| >= 2 && rest[..2] == "//" {
      SlashPairInside(url, off);
      assert false;
    }
  }

  lemma SlashPairInside(url: string, off: nat)
    requires NoDoubleSlash(url) && off + 1 < |url|
    ensures url[off..][..2] != "//"
  {
    assert url[off..][..2] == [url[off], url[off + 1]];
  }

  /** A clean URL without "//" is rejected, and never raises. */
  lemma {:induction false} NoDoubleSlashRejected(url: string, tables: HostTables)
    requires Clean(url) && NoDoubleSlash(url)
    ensures Netloc(url) == ""
    ensures CheckUrl(url, tables) == Success(false)
  {
    NoDoubleSlashNoNetloc(url);
    EmptyNetlocRejected(url, tables);
  }

  /** A listed domain written without a scheme, such as
      "terabox.com/s/1", is rejected whatever path follows: without "//"
      there is no network location. */
  lemma {:induction false} SchemelessDomainRejected(k: nat, path: string, tables: HostTables)
    requires k < |ValidDomains|
    requires Clean(path) && NoDoubleSlash(path) && (path == [] || path[0] != '/')
    ensures CheckUrl(ValidDomains[k] + ("/" + path), tables) == Success(false)
  {
    var d := ValidDomains[k];
    var tail := "/" + path;
    DomainsAreHostText();
    assert NoDoubleSlash(tail) by {
      forall i | 0 <= i < |tail| - 1 ensures tail[i] != '/' || tail[i + 1] != '/' {
        if i > 0 { assert tail[i] == path[i - 1] && tail[i + 1] == path[i]; }
      }
    }
    assert Clean(tail) by {
      forall i | 0 <= i < |tail| ensures !IsUnsafe(tail[i]) {
        if i > 0 { assert tail[i] == path[i - 1]; }
      }
    }
    CleanAppend(d, tail);
    JoinNoDoubleSlash(d, tail);
    NoDoubleSlashRejected(d + tail, tables);
  }

  lemma {:induction false} JoinNoDoubleSlash(a: string, b: string)
    requires NoAuthorityEnd(a) && NoDoubleSlash(b)
    ensures NoDoubleSlash(a + b)
  {
    forall i | 0 <= i < |a + b| - 1 ensures (a + b)[i] != '/' || (a + b)[i + 1] != '/' {
      if i >= |a| {
        assert (a + b)[i] == b[i - |a|] && (a + b)[i + 1] == b[i - |a| + 1];
      } else {
        assert (a + b)[i] == a[i];
      }
    }
  }
}

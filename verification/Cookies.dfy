/** Stored cookies and the requests they belong on, sections 5.1.3 and 5.1.4 of RFC 6265. */
module Cookies {
  import opened Wrappers
  import opened Texts
  import opened Clocks
  import Urls

  type Url = Urls.Url

  datatype StoredCookie = StoredCookie(
    name: string,
    value: string,
    domain: string,
    hostOnly: bool,
    path: string,
    secure: bool,
    expires: Option<Instant>)

  type Address = string -> bool   // whether a text is an IP address

  // --- paths

  /** A request target without its query and fragment. */
  function PathOf(target: string): (path: string)
    ensures path <= target
  {
    var query := IndexOf(target, '?');
    var fragment := IndexOf(target, '#');
    target[..if query < fragment then query else fragment]
  }

  predicate PathMatches(target: string, cookiePath: string) {
    var path := PathOf(target);
    || path == cookiePath
    || (cookiePath <= path
        && ((cookiePath != "" && cookiePath[|cookiePath| - 1] == '/')
            || (path != cookiePath && path[|cookiePath|] == '/')))
  }

  function DefaultPath(target: string): string {
    var path := PathOf(target);
    match LastIndexOf(path, '/')
    case None => "/"
    case Some(at) => if at == 0 then "/" else path[..at]
  }

  /** A cookie kept under its default path goes back to the target that set it, when that has a slash at all. */
  lemma DefaultPathMatchesIff(target: string)
    ensures PathMatches(target, DefaultPath(target)) <==> '/' in PathOf(target)
  {
    var path := PathOf(target);
    if LastIndexOf(path, '/').Some? && LastIndexOf(path, '/').value == 0 {
      assert path[0] == '/' && "/" <= path;
    }
    if "/" <= path {
      assert path[0] == '/';
    }
  }

  // --- domains

  predicate DomainMatches(isAddress: Address, host: string, domain: string) {
    || host == domain
    || (!isAddress(host)
        && domain != "" && |host| > |domain|
        && host[|host| - |domain|..] == domain && host[|host| - |domain| - 1] == '.')
  }

  /** A host matches a domain when it is the domain, or is no address and continues it at a dot. */
  lemma DomainMatchesIff(isAddress: Address, host: string, domain: string)
    ensures DomainMatches(isAddress, host, domain)
            <==> host == domain
                 || (!isAddress(host) && domain != "" && exists front: string :: host == front + "." + domain)
  {
    if DomainMatches(isAddress, host, domain) && host != domain {
      var front := host[..|host| - |domain| - 1];
      assert host == front + "." + domain;
    }
  }

  /** The domain a cookie is kept under and whether it is confined to it; None refuses the cookie. */
  function Scope(isAddress: Address, host: string, attribute: Option<string>): Option<(string, bool)> {
    var domain := if attribute.Some? then Lowered(TrimStart(Trim(attribute.value, IsSpace), IsDot)) else "";
    if domain == "" then Some((host, true))
    else if domain == host then Some((domain, false))
    else if '.' !in domain || !DomainMatches(isAddress, host, domain) then None
    else Some((domain, false))
  }

  /** A scope never reaches past the host that set it, nor, but for the host's own name, over a bare label. */
  lemma ScopeIsTheHosts(isAddress: Address, host: string, attribute: Option<string>)
    ensures match Scope(isAddress, host, attribute)
            case None => true
            case Some((domain, hostOnly)) =>
              && DomainMatches(isAddress, host, domain) && (hostOnly ==> domain == host)
              && (domain != host ==> '.' in domain)
  {
  }

  // --- requests

  predicate Expired(cookie: StoredCookie, now: Instant) {
    cookie.expires.Some? && cookie.expires.value <= now
  }

  /** Whether a cookie belongs on a request. */
  predicate Matches(isAddress: Address, cookie: StoredCookie, url: Url, now: Instant) {
    && !Expired(cookie, now)
    && (cookie.secure ==> Urls.Secure(url))
    && (if cookie.hostOnly then Lowered(url.host) == cookie.domain
        else DomainMatches(isAddress, Lowered(url.host), cookie.domain))
    && PathMatches(url.target, cookie.path)
  }
}

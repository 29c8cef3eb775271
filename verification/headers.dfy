/** What the tracking handler reads from request headers: the client's country and address and
    the user agent. Header names are lower-case, as Node.js delivers them. */
module RequestHeaders {
  import opened Wrappers
  import Text

  type Headers = map<string, string>

  /** `req.headers[name]`, with an absent header read as the empty string: the handler only ever
      tests headers for truthiness, under which `undefined` and `""` agree. */
  function Header(h: Headers, name: string): string
  {
    if name in h then h[name] else ""
  }

  /** The proxy/CDN country headers, highest priority first. */
  const CountryHeaders: seq<string> := ["cf-ipcountry", "x-vercel-ip-country", "x-country"]

  const UnknownCountry := "Unknown"

  /** Header `CountryHeaders[i]` is the first of the country headers with a non-empty value. */
  predicate FirstCountryHeader(h: Headers, i: int)
  {
    && 0 <= i < |CountryHeaders|
    && Header(h, CountryHeaders[i]) != ""
    && forall j :: 0 <= j < i ==> Header(h, CountryHeaders[j]) == ""
  }

  /** `detectCountry`: the value of the first non-empty country header, else `"Unknown"`; never
      empty. */
  function DetectCountry(h: Headers): (country: string)
    ensures country != ""
    ensures forall i :: FirstCountryHeader(h, i) ==> country == Header(h, CountryHeaders[i])
    ensures (forall i :: 0 <= i < |CountryHeaders| ==> Header(h, CountryHeaders[i]) == "") ==>
              country == UnknownCountry
  {
    assert CountryHeaders[0] == "cf-ipcountry";
    assert CountryHeaders[1] == "x-vercel-ip-country";
    assert CountryHeaders[2] == "x-country";
    if Header(h, "cf-ipcountry") != "" then Header(h, "cf-ipcountry")
    else if Header(h, "x-vercel-ip-country") != "" then Header(h, "x-vercel-ip-country")
    else if Header(h, "x-country") != "" then Header(h, "x-country")
    else UnknownCountry
  }

  /** The first entry of the forwarded-address list, without surrounding white space: it holds no
      comma, does not start or end with white space, and consists of characters of the header. */
  function ForwardedFor(h: Headers): (ip: string)
    ensures ',' !in ip
    ensures ip == [] || (!Text.IsSpace(ip[0]) && !Text.IsSpace(ip[|ip| - 1]))
    ensures forall c :: c in ip ==> c in Header(h, "x-forwarded-for")
  {
    Text.SplitHead(Header(h, "x-forwarded-for"), ',');
    Text.Trim(Text.Split(Header(h, "x-forwarded-for"), ',')[0])
  }

  /** For a header "a,rest" whose first entry `a` has no comma, the address is `a` trimmed. */
  lemma ForwardedForFirstEntry(h: Headers, a: string, rest: string)
    requires ',' !in a
    requires Header(h, "x-forwarded-for") == a + "," + rest
    ensures ForwardedFor(h) == Text.Trim(a)
  {
    Text.SplitFirstEntry(a, ',', rest);
  }

  /** For a header with no comma, a single address, the address is the whole header trimmed. */
  lemma ForwardedForSingleEntry(h: Headers)
    requires ',' !in Header(h, "x-forwarded-for")
    ensures ForwardedFor(h) == Text.Trim(Header(h, "x-forwarded-for"))
  {
    Text.SplitNoSep(Header(h, "x-forwarded-for"), ',');
  }

  /** The client address: the forwarded-for
      entry if non-empty, else the socket's remote address (which may be undefined), else the
      empty string. */
  function ClientIp(forwarded: string, remote: Option<string>): (ip: string)
    ensures forwarded != "" ==> ip == forwarded
    ensures forwarded == "" ==> ip == remote.GetOr("")
  {
    if forwarded != "" then forwarded
    else if remote.Some? && remote.value != "" then remote.value
    else ""
  }
}

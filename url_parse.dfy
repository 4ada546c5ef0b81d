/** `parse_address`: split an `http://` URL into host, port, path and
    fragment. The split follows the shape of the scheme / authority / path /
    fragment division of URIs, without its rules for escaping, user
    information or queries. */
module UrlParse {
  import opened Wrappers
  import opened RustStr

  const Scheme: string := "http://"
  const SchemeSeparator: string := "://"
  const DefaultPort: string := "80"

  datatype Address = Address(host: string, port: string, path: string, fragment: string)

  /** The panic for a URL that is not `http://`. */
  datatype AddressError = UnsupportedScheme

  /** The separator after `http` is the first `://` of the URL. */
  lemma SchemeIsFirstPiece(url: string)
    requires Scheme <= url
    ensures FirstPiece(url, SchemeSeparator, "http")
  {
    assert url[..7] == Scheme;
    forall j | 0 <= j < 4
      ensures !OccursAt(url, SchemeSeparator, j)
    {
      assert url[j..j + 3][0] == url[j];
    }
    assert url[4..7] == SchemeSeparator;
  }

  /** Piece 1 of `url.split("://")`: the text after `http://` up to the next
      `://`, or to the end of the URL when there is none. */
  function SchemeRest(url: string): (rest: string)
    requires Scheme <= url
    ensures FirstPiece(url[|Scheme|..], SchemeSeparator, rest)
  {
    SchemeIsFirstPiece(url);
    SplitAt(url, SchemeSeparator, "http");
    SplitHead(url[|Scheme|..], SchemeSeparator);
    Split(url, SchemeSeparator)[1]
  }

  /** Lines 59-65: the authority (`hostport`) is the text before the first
      `/` and the rest follows it; with no `/` the rest is `/`. */
  function SplitAuthority(rest: string): (r: (string, string))
    ensures '/' in rest ==> rest == r.0 + "/" + r.1 && '/' !in r.0
    ensures '/' !in rest ==> r == (rest, "/")
  {
    if '/' in rest then
      SplitNTwoChar(rest, '/');
      var address := SplitN(rest, 2, "/");
      (address[0], address[1])
    else (rest, "/")
  }

  /** Lines 67-73: host and port are the two sides of the last `:`; with no
      `:` the host is everything and the port is `80`. */
  function SplitPort(hostport: string): (r: (string, string))
    ensures ':' in hostport ==> hostport == r.0 + ":" + r.1 && ':' !in r.1
    ensures ':' !in hostport ==> r == (hostport, DefaultPort)
  {
    if ':' in hostport then
      RSplitNTwoChar(hostport, ':');
      var parts := RSplitN(hostport, 2, ':');
      (parts[1], parts[0])
    else (hostport, DefaultPort)
  }

  /** Lines 75-81: the path is `/` and the text before the last `#`, the
      fragment `#` and the text after it; with no `#` the path is `/` and
      everything, and the fragment is empty. */
  function SplitFragment(pathfragment: string): (r: (string, string))
    ensures |r.0| >= 1 && r.0[0] == '/'
    ensures r.0 + r.1 == "/" + pathfragment
    ensures '#' in pathfragment ==> |r.1| >= 1 && r.1[0] == '#' && '#' !in r.1[1..]
    ensures '#' !in pathfragment ==> r.1 == ""
  {
    if '#' in pathfragment then
      RSplitNTwoChar(pathfragment, '#');
      var parts := RSplitN(pathfragment, 2, '#');
      var path, fragment := "/" + parts[1], "#" + parts[0];
      assert fragment[0] == '#' && fragment[1..] == parts[0];
      assert path + fragment == "/" + (parts[1] + "#" + parts[0]);
      (path, fragment)
    else ("/" + pathfragment, "")
  }

  /** `parse_address`: only `http://` URLs are accepted; the host never
      holds a `/` and the path always starts with one. With no `/` after the
      scheme the path is `//` and there is no fragment, even when the
      authority holds a `#`. */
  function ParseAddress(url: string): (r: Result<Address, AddressError>)
    ensures r.Failure? <==> !(Scheme <= url)
    ensures r.Success? ==> '/' !in r.value.host
    ensures r.Success? ==> |r.value.path| >= 1 && r.value.path[0] == '/'
    ensures r.Success? && '/' !in SchemeRest(url) ==> r.value.path == "//" && r.value.fragment == ""
  {
    if !(Scheme <= url) then Failure(UnsupportedScheme)
    else
      var (hostport, pathfragment) := SplitAuthority(SchemeRest(url));
      var (host, port) := SplitPort(hostport);
      var (path, fragment) := SplitFragment(pathfragment);
      Success(Address(host, port, path, fragment))
  }

  /** Two cuts of one text at the first occurrence of a character agree. */
  lemma FirstCutUnique(s: string, c: char, p: string, q: string)
    requires p <= s && c !in p && (p == s || s[|p|] == c)
    requires q <= s && c !in q && (q == s || s[|q|] == c)
    ensures p == q
  {
    FirstPieceChar(s, c, p);
    FirstPieceChar(s, c, q);
    FindFirstPiece(s, [c], p);
    FindFirstPiece(s, [c], q);
  }

  /** Host and port come from the authority, the text before the first `/`:
      without a `:` the host is the whole authority and the port is `80`;
      otherwise they are the two sides of the last `:`. */
  lemma HostAndPort(url: string, authority: string, tail: string)
    requires Scheme <= url
    requires SchemeRest(url) == authority + tail
    requires '/' !in authority && (tail == [] || tail[0] == '/')
    ensures ParseAddress(url).Success?
    ensures var a := ParseAddress(url).value;
      && (':' !in authority ==> a.host == authority && a.port == DefaultPort)
      && (':' in authority ==> authority == a.host + ":" + a.port && ':' !in a.port)
  {
    var rest := SchemeRest(url);
    if '/' in rest {
      assert rest[|authority|] == '/';
      FirstCutUnique(rest, '/', authority, SplitAuthority(rest).0);
    } else {
      assert rest == authority;
    }
  }

  /** Path and fragment come from the text after the first `/`: without a
      `#` the path is `/` and that text, and the fragment is empty; otherwise
      the fragment is `#` and the text after the last `#`, and the path is
      `/` and the text before it. */
  lemma PathAndFragment(url: string, authority: string, pathfragment: string)
    requires Scheme <= url
    requires SchemeRest(url) == authority + "/" + pathfragment
    requires '/' !in authority
    ensures ParseAddress(url).Success?
    ensures var a := ParseAddress(url).value;
      && ('#' !in pathfragment ==> a.path == "/" + pathfragment && a.fragment == "")
      && ('#' in pathfragment ==>
            && a.path + a.fragment == "/" + pathfragment
            && |a.fragment| >= 1 && a.fragment[0] == '#' && '#' !in a.fragment[1..])
  {
    var rest := SchemeRest(url);
    assert rest[|authority|] == '/';
    var (hostport, pf) := SplitAuthority(rest);
    FirstCutUnique(rest, '/', authority, hostport);
    assert pf == pathfragment;
  }
}

/** storage/DelegatingStorageRepository: a URL is routed to the storage repository registered
  * for its prefix, the part matched by ^(\w+://[^/]+/).* — a word-character scheme, "://",
  * a non-empty host running up to the first '/', and that '/' (a restricted form of the scheme
  * and authority of section 3 of RFC 3986). */
module StorageRouting {
  import opened Wrappers
  import opened JavaText

  /** Java's \w without UNICODE_CHARACTER_CLASS: [a-zA-Z_0-9]. */
  predicate IsWordChar(c: char) {
    ('a' <= c <= 'z') || ('A' <= c <= 'Z') || ('0' <= c <= '9') || c == '_'
  }

  /** The characters Java's '.' does not match (without DOTALL or UNIX_LINES). */
  predicate IsLineTerminator(c: char) {
    c == '\n' || c == '\r' || c == '\U{0085}' || c == '\U{2028}' || c == '\U{2029}'
  }

  /** `.*` matches the whole of `s`. */
  predicate NoLineTerminator(s: string) {
    forall i | 0 <= i < |s| :: !IsLineTerminator(s[i])
  }

  predicate AllWordChars(s: string) {
    forall i | 0 <= i < |s| :: IsWordChar(s[i])
  }

  /** The length of the longest run of word characters at the start of `s`. */
  function WordPrefixLength(s: string): (n: nat)
    ensures n <= |s| && AllWordChars(s[..n])
    ensures n < |s| ==> !IsWordChar(s[n])
  {
    if |s| == 0 || !IsWordChar(s[0]) then 0
    else
      var n := 1 + WordPrefixLength(s[1..]);
      assert s[..n] == [s[0]] + s[1..][..n - 1];
      n
  }

  /** The routing key of a URL: group 1 of the prefix pattern, or None when the URL does not match. */
  function UrlPrefix(url: string): Option<string> {
    var n := WordPrefixLength(url);
    if n == 0 || !StartsWith(url[n..], "://") then None
    else
      var after := url[n + 3..];
      var slash := IndexOf(after, '/');
      if slash <= 0 || !NoLineTerminator(after[slash + 1..]) then None
      else Some(url[..n + 3 + slash + 1])
  }

  /** A URL built from a scheme, a host and a remainder matches iff the remainder has no line
    * terminator, and its key is then exactly scheme + "://" + host + "/". */
  lemma UrlPrefixOfParts(scheme: string, host: string, rest: string)
    requires |scheme| > 0 && AllWordChars(scheme)
    requires |host| > 0 && '/' !in host
    ensures UrlPrefix(scheme + "://" + host + "/" + rest)
         == if NoLineTerminator(rest) then Some(scheme + "://" + host + "/") else None
  {
    var url := scheme + "://" + host + "/" + rest;
    assert url[..|scheme|] == scheme;
    assert url[|scheme|] == ':';
    WordPrefixStops(url, scheme);
    var n := |scheme|;
    assert url[n..][..3] == "://";
    var after := url[n + 3..];
    assert after == host + ['/'] + rest;
    IndexOfAfter(host, '/', rest);
    assert after[|host| + 1..] == rest;
    assert url[..n + 3 + |host| + 1] == scheme + "://" + host + "/";
  }

  lemma WordPrefixStops(s: string, scheme: string)
    requires |scheme| < |s| && s[..|scheme|] == scheme && AllWordChars(scheme) && !IsWordChar(s[|scheme|])
    ensures WordPrefixLength(s) == |scheme|
  {
    var n := WordPrefixLength(s);
    assert forall i | 0 <= i < n :: IsWordChar(s[i]) by {
      forall i | 0 <= i < n ensures IsWordChar(s[i]) { assert s[..n][i] == s[i]; }
    }
    assert forall i | 0 <= i < |scheme| :: IsWordChar(s[i]) by {
      forall i | 0 <= i < |scheme| ensures IsWordChar(s[i]) { assert scheme[i] == s[i]; }
    }
  }

  /** A key of the shape scheme + "://" + host + "/": word characters, "://", a non-empty host
    * without '/', and the closing '/'. */
  predicate IsPrefixKey(key: string) {
    && |key| > 0 && key[|key| - 1] == '/'
    && exists n | 0 < n < |key| - 4 :: AllWordChars(key[..n]) && key[n..n + 3] == "://" && '/' !in key[n + 3..|key| - 1]
  }

  /** Conversely, a matched URL is its key followed by a remainder without line terminators, and the
    * key has the shape scheme + "://" + host + "/". */
  lemma UrlPrefixShape(url: string)
    requires UrlPrefix(url).Some?
    ensures var key := UrlPrefix(url).value;
      |key| <= |url| && url[..|key|] == key && NoLineTerminator(url[|key|..]) && IsPrefixKey(key)
  {
    var n := WordPrefixLength(url);
    var after := url[n + 3..];
    var slash := IndexOf(after, '/');
    var key := url[..n + 3 + slash + 1];
    assert UrlPrefix(url).value == key;
    SuffixOfSuffix(url, n + 3, slash + 1);
    assert |key| == n + 3 + slash + 1;
    assert NoLineTerminator(url[|key|..]);
    KeyShape(url, n, slash);
  }

  lemma SuffixOfSuffix(s: string, a: nat, b: nat)
    requires a + b <= |s|
    ensures s[a..][b..] == s[a + b..]
  {
  }

  /** The key cut from a URL at the first '/' after "://" has the key shape. */
  lemma KeyShape(url: string, n: nat, slash: nat)
    requires 0 < n && 0 < slash && n + 3 + slash < |url|
    requires AllWordChars(url[..n]) && StartsWith(url[n..], "://")
    requires url[n + 3..][slash] == '/' && '/' !in url[n + 3..][..slash]
    ensures IsPrefixKey(url[..n + 3 + slash + 1])
  {
    var key := url[..n + 3 + slash + 1];
    assert key[..n] == url[..n];
    assert key[n..n + 3] == url[n..][..3];
    assert key[n + 3..|key| - 1] == url[n + 3..][..slash];
    PrefixKeyOf(key, n);
  }

  lemma PrefixKeyOf(key: string, n: nat)
    requires 0 < n < |key| - 4 && key[|key| - 1] == '/'
    requires AllWordChars(key[..n]) && key[n..n + 3] == "://" && '/' !in key[n + 3..|key| - 1]
    ensures IsPrefixKey(key)
  {
  }

  /** Java's '.' stops at a newline, so a URL with a newline after its prefix does not match. */
  lemma NewlineAfterPrefixRejected()
    ensures UrlPrefix("gdrive://host/a\nb").None?
  {
    assert "gdrive://host/a\nb" == "gdrive" + "://" + "host" + "/" + "a\nb";
    assert !NoLineTerminator("a\nb") by { assert IsLineTerminator("a\nb"[1]); }
    assert AllWordChars("gdrive");
    UrlPrefixOfParts("gdrive", "host", "a\nb");
  }

  /** The outcome of asking a registered Supplier for its repository. */
  datatype Supplied<R> = Supplied(repository: R) | SupplierThrew(cause: string)

  /** findRepository: IOException for a URL that does not match, IOException for a key with no
    * registered supplier, and the supplier's exception wrapped in an IOException. */
  function FindRepository<R>(repositories: map<string, Supplied<R>>, url: string): (r: Result<R>)
    ensures UrlPrefix(url).None? ==> r.Err? && r.error.kind == IO
    ensures UrlPrefix(url).Some? && UrlPrefix(url).value !in repositories ==> r.Err? && r.error.kind == IO
    ensures r.Ok? <==>
      UrlPrefix(url).Some? && UrlPrefix(url).value in repositories && repositories[UrlPrefix(url).value].Supplied?
    ensures r.Ok? ==> r.value == repositories[UrlPrefix(url).value].repository
    ensures r.Err? ==> r.error.kind == IO
  {
    match UrlPrefix(url)
    case None => Fail(IO, "Unrecognized URL, expecting ^(\\w+://[^/]+/).* got: " + url)
    case Some(key) =>
      if key !in repositories then Fail(IO, "Unsupported storage repository for URL: " + url)
      else match repositories[key]
        case Supplied(repository) => Ok(repository)
        case SupplierThrew(cause) => Fail(IO, cause)
  }

  /** A call forwarded to a repository. */
  datatype Request = DownloadFile(url: string) | Metadata(url: string)

  /** downloadFile / metadata: the selected repository receives the same call with the unchanged URL. */
  function Delegate<R>(repositories: map<string, Supplied<R>>, request: Request): (r: Result<(R, Request)>)
    ensures r.Ok? <==> FindRepository(repositories, request.url).Ok?
    ensures r.Ok? ==> r.value == (FindRepository(repositories, request.url).value, request)
  {
    var repository :- FindRepository(repositories, request.url);
    Ok((repository, request))
  }

  /** Two URLs with the same prefix are served by the same repository. */
  lemma SamePrefixSameRepository<R>(repositories: map<string, Supplied<R>>, scheme: string, host: string, rest1: string, rest2: string)
    requires |scheme| > 0 && AllWordChars(scheme)
    requires |host| > 0 && '/' !in host
    requires NoLineTerminator(rest1) && NoLineTerminator(rest2)
    ensures FindRepository(repositories, scheme + "://" + host + "/" + rest1)
         == FindRepository(repositories, scheme + "://" + host + "/" + rest2)
           || (FindRepository(repositories, scheme + "://" + host + "/" + rest1).Err?
               && FindRepository(repositories, scheme + "://" + host + "/" + rest2).Err?)
  {
    UrlPrefixOfParts(scheme, host, rest1);
    UrlPrefixOfParts(scheme, host, rest2);
  }
}

/** storage/googledrive/DelegatingStorageRepository: the same prefix routing as
  * storage/DelegatingStorageRepository, but over repositories registered directly instead of
  * through suppliers, so there is no exception to wrap. */
module DriveStorageRouting {
  import opened Wrappers
  import opened StorageRouting

  const UNRECOGNIZED_URL_MESSAGE: string := "Unrecognized URL, expecting ^(\\w+://[^/]+/).* got: "

  /** findRepository: IOException for a URL that does not match the prefix pattern and for an
    * unregistered prefix; otherwise the registered repository itself. */
  function FindRepository<R>(repositories: map<string, R>, url: string): (r: Result<R>)
    ensures r.Ok? <==> UrlPrefix(url).Some? && UrlPrefix(url).value in repositories
    ensures r.Ok? ==> r.value == repositories[UrlPrefix(url).value]
    ensures r.Err? ==> r.error.kind == IO
  {
    match UrlPrefix(url)
    case None => Fail(IO, UNRECOGNIZED_URL_MESSAGE + url)
    case Some(key) =>
      if key !in repositories then Fail(IO, "Unsupported storage repository for URL: " + url)
      else Ok(repositories[key])
  }

  /** Registering a repository directly behaves like registering a supplier that never throws. */
  lemma SameAsNeverThrowingSuppliers<R>(repositories: map<string, R>, url: string)
    ensures FindRepository(repositories, url).Ok?
        <==> StorageRouting.FindRepository(map k | k in repositories :: Supplied(repositories[k]), url).Ok?
    ensures FindRepository(repositories, url).Ok? ==>
        FindRepository(repositories, url).value
        == StorageRouting.FindRepository(map k | k in repositories :: Supplied(repositories[k]), url).value
  {
  }

  /** A call forwarded to a repository. */
  datatype Request = DownloadFile(url: string) | Checksum(url: string)

  /** downloadFile / checksum: the selected repository receives the same call with the unchanged URL. */
  function Delegate<R>(repositories: map<string, R>, request: Request): (r: Result<(R, Request)>)
    ensures r.Ok? <==> UrlPrefix(request.url).Some? && UrlPrefix(request.url).value in repositories
    ensures r.Ok? ==> r.value == (repositories[UrlPrefix(request.url).value], request)
  {
    var repository :- FindRepository(repositories, request.url);
    Ok((repository, request))
  }
}

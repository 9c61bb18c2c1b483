/** The `/thread` handler (server.js:109-136): the posts of thread `dat` of board
    `base`, read from the raw post log when it can be fetched and scraped from the
    read.cgi page otherwise. The two requests are parameters: each maps a URL to
    what fetching it gave. */
module Viewer {
  import opened Strings
  import Url
  import Dat
  import Article

  /** The outcome of one request: the decoded text, or the error it threw. */
  datatype Fetch = Fetched(text: string) | Failed(reason: string)

  /** What the handler answers: the "missing arguments" notice, the posts of the
      thread, or the failure message of the fallback request. */
  datatype Page = MissingArguments | Posts(posts: seq<Dat.Post>) | Error(reason: string)

  /** A query parameter that is present and not empty (a truthy string). */
  predicate Given(arg: Option<string>) {
    arg.Some? && arg.value != []
  }

  /** The handler: without both parameters, the notice; otherwise the posts of
      the log at `dat/<dat>.dat` under the board when that request succeeds, else
      the posts of the read.cgi page when that one succeeds, else its error. */
  function ShowThread(base: Option<string>, dat: Option<string>, fetchDat: string -> Fetch, fetchPage: string -> Fetch): (r: Page)
    ensures r.MissingArguments? <==> !Given(base) || !Given(dat)
    ensures r.Posts? ==> forall k :: 0 <= k < |r.posts| ==> r.posts[k].no == k + 1
  {
    if !Given(base) || !Given(dat) then MissingArguments
    else
      match fetchDat(Url.DatUrl(base.value, dat.value))
      case Fetched(text) => Posts(Dat.ParseDat(text))
      case Failed(_) =>
        match fetchPage(Url.ReadCgiUrl(base.value, dat.value))
        case Fetched(page) => Posts(Article.ExtractArticles(page))
        case Failed(reason) => Error(reason)
  }

  /** The handler requests nothing but the post log and the read.cgi page of the
      thread: answers that agree on those two URLs give the same page. */
  lemma ShowThreadRequests(base: string, dat: string, fetchDat: string -> Fetch, fetchPage: string -> Fetch,
                           fetchDat': string -> Fetch, fetchPage': string -> Fetch)
    requires fetchDat(Url.DatUrl(base, dat)) == fetchDat'(Url.DatUrl(base, dat))
    requires fetchPage(Url.ReadCgiUrl(base, dat)) == fetchPage'(Url.ReadCgiUrl(base, dat))
    ensures ShowThread(Some(base), Some(dat), fetchDat, fetchPage) == ShowThread(Some(base), Some(dat), fetchDat', fetchPage')
  {
  }

  /** When the post log can be fetched, the read.cgi page is never consulted, and
      the posts are those of the log. */
  lemma ShowThreadPrefersLog(base: string, dat: string, fetchDat: string -> Fetch, fetchPage: string -> Fetch,
                             fetchPage': string -> Fetch)
    requires base != [] && dat != []
    requires fetchDat(Url.DatUrl(base, dat)).Fetched?
    ensures var r := ShowThread(Some(base), Some(dat), fetchDat, fetchPage);
      && r == ShowThread(Some(base), Some(dat), fetchDat, fetchPage')
      && r == Posts(Dat.ParseDat(fetchDat(Url.DatUrl(base, dat)).text))
  {
  }

  /** When the post log cannot be fetched, the answer does not depend on why, and
      is read off the read.cgi page of the thread. */
  lemma ShowThreadFallsBack(base: string, dat: string, fetchDat: string -> Fetch, fetchPage: string -> Fetch,
                            fetchDat': string -> Fetch)
    requires base != [] && dat != []
    requires fetchDat(Url.DatUrl(base, dat)).Failed? && fetchDat'(Url.DatUrl(base, dat)).Failed?
    ensures var r := ShowThread(Some(base), Some(dat), fetchDat, fetchPage);
      && r == ShowThread(Some(base), Some(dat), fetchDat', fetchPage)
      && (r.Error? <==> fetchPage(Url.ReadCgiUrl(base, dat)).Failed?)
      && (r.Posts? ==> r.posts == Article.ExtractArticles(fetchPage(Url.ReadCgiUrl(base, dat)).text))
  {
  }

  /** Whichever source they come from, the bodies shown hold no markup but the
      reply links the viewer made, so they are safe to place in the page. */
  lemma ShowThreadSafe(base: Option<string>, dat: Option<string>, fetchDat: string -> Fetch, fetchPage: string -> Fetch)
    ensures var r := ShowThread(base, dat, fetchDat, fetchPage);
      r.Posts? ==> forall k :: 0 <= k < |r.posts| ==> Dat.AnchorsOnly(r.posts[k].body)
  {
    var r := ShowThread(base, dat, fetchDat, fetchPage);
    if r.Posts? {
      var logUrl := Url.DatUrl(base.value, dat.value);
      if fetchDat(logUrl).Fetched? {
        var text := fetchDat(logUrl).text;
        forall k | 0 <= k < |r.posts| ensures Dat.AnchorsOnly(r.posts[k].body) {
          Dat.ParseDatPost(text, k);
        }
      } else {
        forall k | 0 <= k < |r.posts| ensures Dat.AnchorsOnly(r.posts[k].body) {
          Dat.PlainAnchorsOnly(r.posts[k].body);
        }
      }
    }
  }
}

# Simple 5ch Viewer — a verified model of its text processing

Simple 5ch Viewer is a small Express server (`server.js`) that shows 5ch boards
and threads. It fetches a board's thread index `subject.txt` and lists the
threads. For one thread, it first fetches the raw post log `dat/<id>.dat`. When
that request fails, it scrapes the thread's `read.cgi` page instead.

This project models the pure core of the server in Dafny:

- `Url` (url.dfy): the URL join `j` and the three URLs the server builds:
  - the thread index;
  - the post log;
  - the `read.cgi` fallback, named by the board's short name.
- `Subject` (subject.dfy): `parseSubject`, one index line `<id>.dat<>Title (count)`
  per thread.
- `Dat` (dat.dfy): `parseDat`, one post per line `name<>mail<>date id<>body`. The
  body is HTML-escaped, then `<br>` tags are rewritten, then every `>>n`
  reference becomes a link, in the source's order.
- `Article` (article.dfy): the read.cgi fallback. It finds the `<article>`
  elements, takes the name and the date from each, and keeps the element's text
  with its tags removed, escaped.
- `Viewer` (thread.dfy): the `/thread` handler's decision between the log and
  the fallback. The two network requests are parameters.
- `Strings` and `Html` (strings.dfy, html.dfy): the JavaScript and `he`
  primitives the core relies on:
  - `indexOf`;
  - `split` with a string separator;
  - `replace` with a string pattern;
  - the regular-expression character classes;
  - `he.escape`;
  - `/<[^>]*>/g`;
  - the lazy group `open(.*?)close`.

Each regular expression of the source is written as a scanning function. Its
contract, or a lemma beside it, states the match the expression defines:
leftmost, lazy or greedy as written, and with `.` excluding line terminators.

Two behaviours of the code are kept as written:

- The reply count `resCount` is the matched digits as a string, `""` when the
  title carries no count.
- A board URL with no non-empty segment puts the text `undefined` into the
  read.cgi URL, because `.pop()` returns `undefined` there.

The headline results:

- A post body read from the log shows its raw field faithfully. Removing the
  reply links and decoding the character references gives the raw field back
  (`Dat.PostBodyFaithful`).
- Every body the thread page shows, from either source, holds no markup except
  the reply links the viewer itself made (`Viewer.ShowThreadSafe`).
- Every reply reference `>>n` of a raw body becomes a link to post `n`, wherever
  it stands; every other character is escaped (`Dat.PostBody`, `Dat.LinkifyEscape`).
- The `<br>` rewrite can never fire, because escaping has already removed every
  `<` (`Dat.BrRewriteDead`).
- The scraped spans are exactly the successive matches of
  `/<article[\s\S]*?<\/article>/g` (`Article.ArticleSpansSpec`).

## Model

| member | source | states |
|---|---|---|
| Strings.IndexOf | server.js:42 | The first occurrence of the pattern at or after the start, or none when there is no occurrence (the search behind string `replace` and the regex scanners). |
| Strings.IndexOfIsFirst | server.js:42 | When the pattern occurs at `k`, at or after the start, and nowhere between the start and `k`, the search returns `k`. |
| Strings.Split | server.js:39-40 | `split` with a string separator gives at least one piece. |
| Strings.SplitJoin | server.js:39-40 | Joining the pieces with the separator gives the text back. |
| Strings.SplitPiecesFree | server.js:39-40 | No piece contains the separator. |
| Strings.SplitSingle | server.js:40 | A text without the separator is one piece. |
| Strings.SplitAt | server.js:40 | The first piece ends at the first separator; the rest is split again. |
| Strings.SplitAppend | server.js:39 | Splitting at a one-character separator distributes over a text joined by that character. |
| Strings.SplitFirstPiece | server.js:40 | With a separator that cannot overlap itself, a separator-free head is the first field. |
| Strings.DropEmpty | server.js:39 | `filter(Boolean)` keeps exactly the non-empty lines: every element left is non-empty, and a string is in the result exactly when it is a non-empty element of the input. |
| Strings.DropEmptySingle | server.js:39 | One line is kept exactly when it is non-empty; with `DropEmptyAppend` this fixes the result, order included. |
| Strings.DropEmptyAppend | server.js:39 | Filtering distributes over concatenation. |
| Strings.NonEmptyLines | server.js:39 | No ensures: `split("\n").filter(Boolean)`, used again at line 49; `Strings.NonEmptyLinesAppend` and `Strings.NonEmptyLinesSingle` describe it. |
| Strings.NonEmptyLinesAppend | server.js:39 | The non-empty lines of two texts joined by `\n` are those of each, in order. |
| Strings.NonEmptyLinesSingle | server.js:39 | A text without `\n` is one line, or none when it is empty. |
| Strings.RemoveFirst | server.js:42 | `replace(".dat", "")` removes the first occurrence only, and changes nothing when there is none. |
| Strings.DigitRun | server.js:53 | The longest run of digits at the start, as `(\d+)` matches greedily. |
| Strings.DigitRunOf | server.js:53 | Digits followed by a non-digit are exactly the run. |
| Strings.DigitSuffix | server.js:43 | The longest run of digits at the end. |
| Strings.DigitSuffixOf | server.js:43 | Digits after a non-digit are exactly the suffix. |
| Html.EscapeChar | server.js:51 | `he.escape` of one character holds no markup; it differs from the character exactly for `&`, `<`, `>`, `"`, `'` and the backquote. |
| Html.Escape | server.js:51 | Escaped text holds no markup character and no `<`, and is at least as long as the input. |
| Html.EscapeAppend | server.js:51 | Escaping distributes over concatenation. |
| Html.EscapeUnchangedIff | server.js:51 | Escaping changes nothing exactly when no character needs escaping. |
| Html.DecodeRefOfEscaped | server.js:51 | The reference written for a character decodes to that character and its length. |
| Html.UnescapeStep | server.js:51 | Decoding undoes the escape of one character. |
| Html.UnescapeEscape | server.js:51 | Decoding an escaped text gives the text back: escaping loses nothing. |
| Html.StripTags | server.js:131 | `replace(/<[^>]*>/g, "")` never lengthens the text. |
| Html.StripTagsClean | server.js:131 | No complete `<...>` tag is left after stripping. |
| Html.StripTagsNoTags | server.js:131 | Text without a complete tag is unchanged. |
| Html.StripTagsIdempotent | server.js:131 | Stripping twice is stripping once. |
| Html.StripTagsPlain | server.js:131 | A prefix without `<` is kept as it is. |
| Html.StripTagsTag | server.js:131 | A whole tag at the front is removed. |
| Html.EnclosedAtFirstClose | server.js:129-130 | A lazy group `open(.*?)close` ends at the first `close` after `open`. |
| Html.NoEnclosedWithoutClose | server.js:129-130 | Without a later `close` there is no match. |
| Html.NoEnclosedAcrossLines | server.js:129-130 | A line terminator before the first `close` rules out the match at that `open`. |
| Html.FirstEnclosed | server.js:129-130 | `match(/open(.*?)close/)?.[1]` gives the group of the leftmost match, with no match earlier, or none when nothing matches. |
| Html.EnclosedOrEmpty | server.js:129-130 | `match(/open(.*?)close/)?.[1] \|\| ""`: when there is a match, the group of the leftmost match, with no match starting earlier; `""` when there is none. |
| Url.TrimTrailingSlashes | server.js:18 | `replace(/\/+$/, "")` removes exactly the run of slashes at the end. |
| Url.TrimLeadingSlashes | server.js:18 | `replace(/^\/+/, "")` removes exactly the run of slashes at the start. |
| Url.Join | server.js:17-19 | No ensures: `j(a, b)`; `Url.JoinCanonical` and `Url.JoinIgnoresExtraSlashes` describe it. |
| Url.JoinCanonical | server.js:17-19 | However many slashes end the base and start the path, `j` joins them with exactly one. |
| Url.JoinIgnoresExtraSlashes | server.js:17-19 | Adding slashes at the end of the base or the start of the path does not change the joined URL. |
| Url.SubjectUrl | server.js:97 | No ensures: `j(base, "subject.txt")`; `Url.SubjectUrlDirectory` describes it. |
| Url.SubjectUrlDirectory | server.js:97 | The index URL is the board URL with its trailing slashes removed, then `/`, then `subject.txt`, and joining to the part before `subject.txt` equals joining to the board URL. |
| Url.DatUrl | server.js:117 | No ensures: `j(base, "dat/<id>.dat")`; `Url.DatUrlShape` describes it. |
| Url.DatUrlShape | server.js:117 | The post log is `<board>/dat/<id>.dat`, with the board's trailing slashes removed. |
| Url.BoardShortName | server.js:123 | No ensures: `split("/").filter(Boolean).pop()`; `Url.ShortNameOf`, `Url.ShortNameOfSlashes` and `Url.ShortNameIsLastSegment` describe it. |
| Url.ShortNameOf | server.js:123 | The short name is the last non-empty `/` segment of the board URL. |
| Url.ShortNameOfSlashes | server.js:123 | A URL of slashes only has no short name. |
| Url.ShortNameIsLastSegment | server.js:123 | The same name without splitting: drop the trailing slashes, then take what follows the last slash; none when nothing is left. |
| Url.ReadCgiUrl | server.js:123 | No ensures: the read.cgi URL, with `undefined` for a missing short name; `Url.ReadCgiUrlShape` describes it. |
| Url.ReadCgiUrlShape | server.js:122-123 | The fallback URL is `https://itest.5ch.net/read.cgi/<short name>/<id>/`. |
| Subject.SplitReplyCount | server.js:43-44 | A non-empty count means the title line has the form `title ws ( digits )`, with a title free of line terminators; an empty count leaves the title whole. |
| Subject.SplitReplyCountComplete | server.js:43-44 | Whenever `/^(.*)\s\((\d+)\)$/` matches, its two groups are what is found, so the count is empty exactly when there is no match. |
| Subject.SplitReplyCountNoMatch | server.js:44 | A title line the expression does not match is kept whole with count `""`. |
| Subject.ParseSubjectLine | server.js:40-44 | A line is dropped exactly when its file or title field is missing or empty; otherwise the id is the file field with its first `.dat` removed, and the title and count come from the title field. |
| Subject.ParseLines | server.js:40-45 | No ensures: each line's entry, or nothing, in order; `Subject.ParseLinesAppend` describes it. |
| Subject.ParseLinesAppend | server.js:40-45 | The entries of two lists of lines are those of each, in order. |
| Subject.ParseSubject | server.js:38-46 | No ensures: `parseSubject`; `Subject.ParseSubjectAppend`, `Subject.ParseSubjectSingle` and `Subject.ParseSubjectLine` describe it. |
| Subject.ParseSubjectAppend | server.js:38-46 | Lines are parsed independently: the index of two texts joined by `\n` is the concatenation of theirs. |
| Subject.ParseSubjectSingle | server.js:38-46 | A text of one line gives that line's entry, or nothing. |
| Subject.ParseWellFormedLine | server.js:40-44 | A line `file<>rest`, optionally followed by more fields, gives the entry of `file` and `rest`; extra fields are ignored. |
| Subject.DatIdRoundTrip | server.js:42 | An id without `.dat` comes back from `<id>.dat`. |
| Subject.EntryLeadsToLog | server.js:97-117 | The index line of thread `id` leads to the request for `dat/<id>.dat` under the board. |
| Subject.ExampleSubject | server.js:38-46 | The line `1700000000.dat<>Test Thread (5)` gives the thread `1700000000`, titled `Test Thread`, with count `5`. |
| Dat.FieldOr | server.js:50 | A destructured field, with its `""` default when the line has fewer fields. |
| Dat.SpaceRun | server.js:52 | The longest run of `\s` characters at the start. |
| Dat.BrTagLength | server.js:52 | A match of `<br\s*\/?>`, ignoring case, is `<`, `b` or `B`, `r` or `R`, then only `\s` characters with at most one `/` right before the closing `>`. |
| Dat.SpaceRunOf | server.js:52 | `\s` characters followed by a non-`\s` character are exactly the greedy `\s*` run. |
| Dat.BrTagLengthOf | server.js:52 | Every text `<br\s*\/?>` matches, ignoring case, is recognised with its whole length. |
| Dat.BrToNewline | server.js:52 | No ensures: the global scan for `/<br\s*\/?>/gi`; `Dat.BrToNewlinePlain`, `Dat.BrToNewlineTag` and `Dat.BrRewriteDead` describe it. |
| Dat.BrToNewlinePlain | server.js:52 | A prefix without `<` is copied, and the rewrite goes on after it. |
| Dat.BrToNewlineTag | server.js:52 | Every such tag at the front becomes a line break, and the rest is rewritten in turn. |
| Dat.BrRewriteDead | server.js:51-52 | After `he.escape` there is no `<` left, so the `<br>` rewrite never changes a body. |
| Dat.Anchor | server.js:53 | No ensures: the replacement text `<a class="anc" href="#r$1">&gt;&gt;$1</a>`; `Dat.AnchorAtAnchor` and `Dat.LinkAtShape` describe it. |
| Dat.Linkify | server.js:53 | No ensures: the global scan for `/&gt;&gt;(\d+)/g`; `Dat.LinkifyReference`, `Dat.LinkifyPlain`, `Dat.LinkifyEscape`, `Dat.LinkifyStrip` and `Dat.LinkifySafe` describe it. |
| Dat.LinkifyReference | server.js:53 | At the front of the text, an escaped `>>` followed by all of its digits becomes the link `<a class="anc" href="#rN">&gt;&gt;N</a>`, and the scan goes on after the digits. |
| Dat.LinkifyPlain | server.js:53 | Text without `&` is copied unchanged. |
| Dat.LinkRaw | server.js:51-53 | No ensures: an independent definition on the raw body, in which every `>>` followed by its whole digit run becomes the link and every other character is escaped; `Dat.LinkifyEscape` ties it to the code. |
| Dat.LinkifyEscape | server.js:51-53 | Linking the escaped body gives `LinkRaw` of the raw body, so every reference is linked wherever it stands, including after an escaped `&`, `<` or `>`. |
| Dat.LinkifyUnchanged | server.js:53 | Text with no escaped `>>` followed by a digit is unchanged. |
| Dat.LinkifyStrip | server.js:51-53 | Removing the tags from linked escaped text gives the escaped text back. |
| Dat.LinkifySafe | server.js:51-53 | Linked escaped text holds no `<` other than at the start of a whole reply link. |
| Dat.PlainAnchorsOnly | server.js:131 | Text without `<` meets that same safety property. |
| Dat.LinkAtShape | server.js:53 | A recognised link is a whole `open d mid d close` at the start of the text, for a non-empty run of digits `d`. |
| Dat.LinkAtOf | server.js:53 | A link at the start of the text is recognised, with its digits. |
| Dat.AnchorAtAnchor | server.js:53 | The link the rewrite writes is recognised as a reply link to its post. |
| Dat.PostBody | server.js:51-53 | The body HTML is `LinkRaw` of the raw body: the `<br>` rewrite changes nothing, and every reply reference is linked. |
| Dat.PostBodyFaithful | server.js:51-53 | A shown body with its link tags removed is the escaped raw body, which decodes to the raw body; its only markup is reply links. |
| Dat.DatPost | server.js:50-54 | No ensures: the post of one log line; `Dat.DatPostFaithful` describes it. |
| Dat.ParseDat | server.js:48-56 | One post per non-empty line, numbered 1, 2, … in order. |
| Dat.DatPostFaithful | server.js:50-54 | The post of one line has the number it is given, the name of field 0 and the date and id of field 2; its body with the links removed is exactly `he.escape` of field 3, decodes to field 3, and holds only reply links as markup. |
| Dat.ParseDatPost | server.js:49-54 | Post `i` has the name and the date and id of line `i`'s fields 0 and 2; its body with the links removed is exactly `he.escape` of field 3, decodes to it, and holds only reply links as markup. |
| Dat.ParseDatAt | server.js:49-54 | Post `i` is read from line `i` alone. |
| Dat.ParseDatAppend | server.js:48-56 | The log of two texts joined by `\n` is the posts of the first, then those of the second renumbered after them. |
| Dat.DatWellFormedLine | server.js:50-54 | A line `name<>mail<>date<>body`, optionally followed by more fields, gives the post of those fields; the mail field is dropped. |
| Dat.EscapeReference | server.js:51 | A `>>N` reply reference after plain text escapes to `&gt;&gt;N`. |
| Dat.PostBodyReference | server.js:51-53 | A plain body ending in `>>N` is shown as that text followed by the link to post N. |
| Article.Step | server.js:127 | No ensures: one search of the global expression from a position; `Article.StepMatch` and `Article.StepUnique` describe it. |
| Article.StepMatch | server.js:127 | One search finds the leftmost match: the first `open` from the start, then the first `close` after it; it fails only when no match exists. |
| Article.StepUnique | server.js:127 | Any match a search from a point defines is what the search finds. |
| Article.Spans | server.js:127 | No ensures: the successive searches of `matchAll`; `Article.SpansInside`, `Article.SpansMatch` and `Article.SpansUnique` describe it. |
| Article.SpansInside | server.js:127 | The global matches, as `matchAll` finds them, lie inside the page after the starting point. |
| Article.SpansMatch | server.js:127 | The spans are successive matches: the first is what a search from the start finds, each later one what a search from the end of the one before finds, and no match follows the last. |
| Article.SpansUnique | server.js:127 | Any sequence of successive matches is the result, so the semantics determines it. |
| Article.ArticleSpans | server.js:127 | Every span lies inside the page; `Article.ArticleSpansSpec` states which spans they are. |
| Article.ArticleSpansSpec | server.js:127 | The spans are the successive matches of `/<article[\s\S]*?<\/article>/g`, in both directions. |
| Article.ArticleSpansNone | server.js:127 | A page without `<article` yields no posts. |
| Article.Articles | server.js:127 | Each match text `m[0]` is the page slice of its span. |
| Article.ArticleShape | server.js:127 | Each element starts with `<article`, ends with `</article>`, and holds no earlier `</article>`. |
| Article.ArticlePost | server.js:128-131 | The name is the group of the leftmost `<b>(.*?)</b>` match, `""` when the element has none; the date likewise for the leftmost `\[(.*?)\]`; the body is `he.escape` of the element with its tags removed, so it holds no markup and decodes to that text. |
| Article.ExtractArticles | server.js:127-132 | One post per element, numbered 1, 2, … in order, each body free of markup, and post `k` is the post scraped from element `k`. |
| Article.ExtractArticlesBody | server.js:131 | Post `k`'s body is `he.escape` of element `k` with its tags removed; it decodes to that text, which holds no tag. |
| Viewer.ShowThread | server.js:109-136 | The "missing arguments" notice is answered exactly when `base` or `dat` is absent or empty, and posts are always numbered 1, 2, …. |
| Viewer.ShowThreadRequests | server.js:116-126 | The handler consults only the post log URL and the read.cgi URL of the thread. |
| Viewer.ShowThreadPrefersLog | server.js:116-118 | When the log can be fetched, its posts are shown and the read.cgi page plays no part. |
| Viewer.ShowThreadFallsBack | server.js:119-135 | When the log cannot be fetched, the reason does not matter. The answer is the read.cgi page's posts, or an error exactly when that request fails. |
| Viewer.ShowThreadSafe | server.js:118-133 | Whichever source they come from, the shown bodies hold no markup but the viewer's own reply links. |

## Left out

- Network I/O is not modelled. `fetchCP932` (server.js:25-36) and the fallback `axios.get` are the two function parameters of `Viewer.ShowThread`, mapping a URL to the decoded text or to a failure. Request headers, timeouts and HTTP status handling are part of that oracle.
- The 90-second cache is not modelled. A cache hit is another way for the oracle to answer, and an empty cached text is refetched because it is falsy.
- CP932 decoding (`iconv-lite`) is not modelled. Texts are Dafny strings, and UTF-16 code units versus code points is not modelled either.
- The fallback's `r.data` is taken to be the page text. Axios may parse a JSON response into an object, on which `matchAll` would throw; that case is not modelled.
- Query parameters are modelled as an optional string. Repeated parameters, which Express parses into an array, are not modelled.
- An exception thrown by `parseDat` or `sendPosts` inside the first `try` would also trigger the fallback. The model never throws there, so that path is not modelled.
- `/board` (server.js:93-106) is out of the model except for the URL it fetches (`Url.SubjectUrl`) and the parsing it calls (`Subject.ParseSubject`). Its `trim` of the URL and its HTML rendering are not modelled.
- The rendering is not modelled: `sendPosts` (server.js:138-145), `THEME`, the home page, the rate limiter and `app.listen`. `Viewer.ShowThreadSafe` states the property the rendering relies on.
- `Viewer.ShowThread` returns the failure reason. The text `失敗: ` that the handler prefixes to it is not modelled.
- `Subject.ExampleSubject` is the only concrete example. A concrete post log is covered by the general lemmas `Dat.DatWellFormedLine` and `Dat.PostBodyReference` instead, because unfolding long literal texts costs the solver too much.

/** The read.cgi fallback (server.js:127-132): the posts of a thread scraped from
    its HTML page, one per `<article>` element, as
    `body.matchAll(/<article[\s\S]*?<\/article>/g)` finds them. */
module Article {
  import opened Strings
  import opened Html
  import Dat

  const ArticleOpen := "<article"
  const ArticleClose := "</article>"

  /** `(a, b)` is the match of the lazy expression `open[\s\S]*?close` that a
      search from `lo` finds: the first `open` at or after `lo` is at `a`, and the
      match runs to the end `b` of the first `close` that starts after it. */
  ghost predicate MatchAt(s: string, open: string, close: string, lo: int, span: (nat, nat)) {
    var (a, b) := span;
    && lo <= a
    && At(s, a, open)
    && (forall i :: lo <= i < a ==> !At(s, i, open))
    && a + |open| + |close| <= b <= |s|
    && At(s, b - |close|, close)
    && (forall k :: a + |open| <= k < b - |close| ==> !At(s, k, close))
  }

  /** A search from `lo` finds no match: no `open` at or after `lo` has a `close`
      after it. */
  ghost predicate NoMatchFrom(s: string, open: string, close: string, lo: int) {
    forall i, k :: lo <= i && At(s, i, open) && i + |open| <= k ==> !At(s, k, close)
  }

  /** Where the search after the matches `r` resumes: `from` when there are none,
      the end of the last otherwise. */
  function SearchEnd(r: seq<(nat, nat)>, from: nat): nat {
    if r == [] then from else r[|r| - 1].1
  }

  /** `r` are the successive matches of the global expression from `from`: the
      first is what a search from `from` finds, each later one what a search from
      the end of the one before finds, and a search from the end of the last finds
      none. */
  ghost predicate Matches(s: string, open: string, close: string, from: nat, r: seq<(nat, nat)>) {
    && (r != [] ==> MatchAt(s, open, close, from, r[0]))
    && (forall i, j :: 0 <= i && j == i + 1 && j < |r| ==> MatchAt(s, open, close, r[i].1, r[j]))
    && NoMatchFrom(s, open, close, SearchEnd(r, from))
  }

  /** One search of `open[\s\S]*?close` from `from`: the first `open` at or after
      `from`, then the first `close` after it; the match runs from the one to the
      end of the other. `None` when either search fails. */
  function Step(s: string, open: string, close: string, from: nat): Option<(nat, nat)> {
    match IndexOf(s, open, from)
    case None => None
    case Some(a) =>
      match IndexOf(s, close, a + |open|)
      case None => None
      case Some(j) => Some((a, j + |close|))
  }

  /** The search finds the match a search from `from` defines, and fails only
      when there is none. */
  lemma StepMatch(s: string, open: string, close: string, from: nat)
    ensures Step(s, open, close, from).Some? ==> MatchAt(s, open, close, from, Step(s, open, close, from).value)
    ensures Step(s, open, close, from).None? ==> NoMatchFrom(s, open, close, from)
  {
    match IndexOf(s, open, from)
    case None =>
    case Some(a) =>
      match IndexOf(s, close, a + |open|)
      case None =>
        forall i, k | from <= i && At(s, i, open) && i + |open| <= k ensures !At(s, k, close) {
          assert a <= i;
        }
      case Some(j) =>
  }

  /** A match from `from` is what the search finds. */
  lemma StepUnique(s: string, open: string, close: string, from: nat, m: (nat, nat))
    requires MatchAt(s, open, close, from, m)
    ensures Step(s, open, close, from) == Some(m)
  {
    IndexOfIsFirst(s, open, from, m.0);
    IndexOfIsFirst(s, close, m.0 + |open|, m.1 - |close|);
  }

  /** Without a match from `from` the search fails. */
  lemma StepNone(s: string, open: string, close: string, from: nat)
    requires NoMatchFrom(s, open, close, from)
    ensures Step(s, open, close, from).None?
  {
    StepMatch(s, open, close, from);
  }

  /** A match ends after the place its search started and inside the page. */
  lemma MatchAdvances(s: string, open: string, close: string, from: nat, m: (nat, nat))
    requires |open| > 0 && MatchAt(s, open, close, from, m)
    ensures from <= m.0 < m.1 <= |s|
  {
  }

  /** The successive matches of `open[\s\S]*?close` with the global flag from
      `from`, as `matchAll` returns them: each search starts where the previous
      match ended, until a search finds none. */
  function Spans(s: string, open: string, close: string, from: nat): seq<(nat, nat)>
    requires |open| > 0
    decreases |s| - from
  {
    match Step(s, open, close, from)
    case None => []
    case Some(m) =>
      StepMatch(s, open, close, from);
      MatchAdvances(s, open, close, from, m);
      [m] + Spans(s, open, close, m.1)
  }

  /** The spans lie inside the page, after the starting point. */
  lemma {:induction false} SpansInside(s: string, open: string, close: string, from: nat)
    requires |open| > 0
    decreases |s| - from
    ensures forall k :: 0 <= k < |Spans(s, open, close, from)| ==>
      from <= Spans(s, open, close, from)[k].0 <= Spans(s, open, close, from)[k].1 <= |s|
  {
    match Step(s, open, close, from)
    case None =>
    case Some(m) =>
      StepMatch(s, open, close, from);
      MatchAdvances(s, open, close, from, m);
      SpansInside(s, open, close, m.1);
      var rest := Spans(s, open, close, m.1);
      assert Spans(s, open, close, from) == [m] + rest;
  }

  /** No match from `from` is the empty sequence of matches. */
  lemma MatchesNil(s: string, open: string, close: string, from: nat)
    requires NoMatchFrom(s, open, close, from)
    ensures Matches(s, open, close, from, [])
  {
  }

  /** A match followed by successive matches from its end are successive matches;
      `r` is that sequence. */
  lemma MatchesCons(s: string, open: string, close: string, from: nat, m: (nat, nat), rest: seq<(nat, nat)>, r: seq<(nat, nat)>)
    requires MatchAt(s, open, close, from, m)
    requires Matches(s, open, close, m.1, rest)
    requires r == [m] + rest
    ensures Matches(s, open, close, from, r)
  {
    assert SearchEnd(r, from) == SearchEnd(rest, m.1);
    if rest != [] {
      assert r[1] == rest[0];
    }
    forall i, j | 0 <= i && j == i + 1 && j < |r| ensures MatchAt(s, open, close, r[i].1, r[j]) {
      if i > 0 {
        assert r[i] == rest[i - 1] && r[j] == rest[j - 1];
      }
    }
  }

  /** Successive matches are a first match followed by successive matches from
      its end. */
  lemma MatchesUncons(s: string, open: string, close: string, from: nat, r: seq<(nat, nat)>)
    requires r != [] && Matches(s, open, close, from, r)
    ensures MatchAt(s, open, close, from, r[0])
    ensures Matches(s, open, close, r[0].1, r[1..])
  {
    var rest := r[1..];
    assert SearchEnd(r, from) == SearchEnd(rest, r[0].1);
    if rest != [] {
      assert r[1] == rest[0];
    }
    forall i, j | 0 <= i && j == i + 1 && j < |rest| ensures MatchAt(s, open, close, rest[i].1, rest[j]) {
      assert rest[i] == r[i + 1] && rest[j] == r[j + 1];
    }
  }

  /** The spans are the matches of the expression. */
  lemma {:induction false} SpansMatch(s: string, open: string, close: string, from: nat)
    requires |open| > 0
    decreases |s| - from
    ensures Matches(s, open, close, from, Spans(s, open, close, from))
  {
    StepMatch(s, open, close, from);
    match Step(s, open, close, from)
    case None =>
      MatchesNil(s, open, close, from);
    case Some(m) =>
      MatchAdvances(s, open, close, from, m);
      var rest := Spans(s, open, close, m.1);
      assert Matches(s, open, close, m.1, rest) by {
        SpansMatch(s, open, close, m.1);
      }
      MatchesCons(s, open, close, from, m, rest, Spans(s, open, close, from));
  }

  /** The matches are determined by the semantics of the expression: any spans
      that are the successive matches are the result. */
  lemma {:induction false} SpansUnique(s: string, open: string, close: string, from: nat, r: seq<(nat, nat)>)
    requires |open| > 0
    requires Matches(s, open, close, from, r)
    ensures Spans(s, open, close, from) == r
    decreases |r|
  {
    if r == [] {
      StepNone(s, open, close, from);
    } else {
      MatchesUncons(s, open, close, from, r);
      StepUnique(s, open, close, from, r[0]);
      SpansUnique(s, open, close, r[0].1, r[1..]);
      assert r == [r[0]] + r[1..];
    }
  }

  /** The spans of the `<article>` elements of a page. */
  function ArticleSpans(s: string): (r: seq<(nat, nat)>)
    ensures forall k :: 0 <= k < |r| ==> r[k].0 <= r[k].1 <= |s|
  {
    SpansInside(s, ArticleOpen, ArticleClose, 0);
    Spans(s, ArticleOpen, ArticleClose, 0)
  }

  /** The spans are exactly the matches of `/<article[\s\S]*?<\/article>/g`. */
  lemma ArticleSpansSpec(s: string, r: seq<(nat, nat)>)
    ensures ArticleSpans(s) == r <==> Matches(s, ArticleOpen, ArticleClose, 0, r)
  {
    SpansMatch(s, ArticleOpen, ArticleClose, 0);
    if Matches(s, ArticleOpen, ArticleClose, 0, r) {
      SpansUnique(s, ArticleOpen, ArticleClose, 0, r);
    }
  }

  /** A page without `<article` has no posts to scrape. */
  lemma ArticleSpansNone(s: string)
    requires !Contains(s, ArticleOpen)
    ensures ArticleSpans(s) == []
  {
    SpansUnique(s, ArticleOpen, ArticleClose, 0, []);
  }

  /** The text of each match, `m[0]`. */
  function Articles(s: string): (r: seq<string>)
    ensures var spans := ArticleSpans(s);
      && |r| == |spans|
      && forall k :: 0 <= k < |r| ==> spans[k].0 <= spans[k].1 <= |s| && r[k] == s[spans[k].0..spans[k].1]
  {
    var spans := ArticleSpans(s);
    seq(|spans|, k requires 0 <= k < |spans| => s[spans[k].0..spans[k].1])
  }

  /** Each scraped element starts with `<article`, ends with `</article>`, and
      holds no `</article>` before its end. */
  lemma ArticleShape(s: string, k: nat)
    requires k < |Articles(s)|
    ensures Delimited(Articles(s)[k], ArticleOpen, ArticleClose)
  {
    var spans := ArticleSpans(s);
    var (a, b) := spans[k];
    var lo := if k == 0 then 0 else spans[k - 1].1;
    assert MatchAt(s, ArticleOpen, ArticleClose, lo, spans[k]) by {
      SpansMatch(s, ArticleOpen, ArticleClose, 0);
      if k > 0 {
        assert MatchAt(s, ArticleOpen, ArticleClose, spans[k - 1].1, spans[k]);
      }
    }
    MatchShape(s, ArticleOpen, ArticleClose, lo, a, b);
  }

  /** `m` starts with `open`, ends with `close`, and holds no `close` before its
      end. */
  predicate Delimited(m: string, open: string, close: string) {
    && |m| >= |open| + |close|
    && At(m, 0, open)
    && At(m, |m| - |close|, close)
    && forall j :: |open| <= j < |m| - |close| ==> !At(m, j, close)
  }

  /** The text of a match is delimited by the two patterns. */
  lemma MatchShape(s: string, open: string, close: string, lo: int, a: nat, b: nat)
    requires MatchAt(s, open, close, lo, (a, b))
    ensures Delimited(s[a..b], open, close)
  {
    AtSlice(s, a, b, 0, open);
    AtSlice(s, a, b, b - a - |close|, close);
    forall j | |open| <= j < b - a - |close| ensures !At(s[a..b], j, close) {
      AtSlice(s, a, b, j, close);
    }
  }

  /** The post scraped from element `m`, numbered `no`: the name is the first
      `<b>...</b>` group, the date and id the first `[...]` group (each "" when
      absent), and the body is the element's text with every tag removed, escaped. */
  function ArticlePost(m: string, no: nat): (r: Dat.Post)
    ensures r.no == no
    ensures r.name == [] || exists i :: EnclosedAt(m, i, "<b>", "</b>", r.name)
    ensures NoEnclosedFrom(m, "<b>", "</b>", 0) ==> r.name == []
    ensures r.dateId == [] || exists i :: EnclosedAt(m, i, "[", "]", r.dateId)
    ensures NoEnclosedFrom(m, "[", "]", 0) ==> r.dateId == []
    ensures (exists i, g :: EnclosedAt(m, i, "<b>", "</b>", g)) ==>
      exists i :: EnclosedAt(m, i, "<b>", "</b>", r.name) && NoEnclosedBetween(m, "<b>", "</b>", 0, i)
    ensures (exists i, g :: EnclosedAt(m, i, "[", "]", g)) ==>
      exists i :: EnclosedAt(m, i, "[", "]", r.dateId) && NoEnclosedBetween(m, "[", "]", 0, i)
    ensures NoMarkup(r.body) && Unescape(r.body) == StripTags(m)
    ensures r.body == Escape(StripTags(m))
  {
    UnescapeEscape(StripTags(m));
    Dat.Post(no, EnclosedOrEmpty(m, "<b>", "</b>"), EnclosedOrEmpty(m, "[", "]"), Escape(StripTags(m)))
  }

  /** The posts of a read.cgi page: one per element, numbered 1, 2, ... in order. */
  function ExtractArticles(html: string): (r: seq<Dat.Post>)
    ensures |r| == |Articles(html)|
    ensures forall k :: 0 <= k < |r| ==> r[k].no == k + 1
    ensures forall k :: 0 <= k < |r| ==> NoMarkup(r[k].body)
    ensures forall k :: 0 <= k < |r| ==> r[k] == ArticlePost(Articles(html)[k], k + 1)
  {
    var ms := Articles(html);
    seq(|ms|, k requires 0 <= k < |ms| => ArticlePost(ms[k], k + 1))
  }

  /** Each scraped body is its element's text: decoding it gives the element with
      its tags removed, which holds no tag left. */
  lemma ExtractArticlesBody(html: string, k: nat)
    requires k < |ExtractArticles(html)|
    ensures var t := Unescape(ExtractArticles(html)[k].body);
      t == StripTags(Articles(html)[k]) && NoTagPair(t)
    ensures ExtractArticles(html)[k].body == Escape(StripTags(Articles(html)[k]))
  {
    StripTagsClean(Articles(html)[k]);
  }
}

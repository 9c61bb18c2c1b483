/** Markup handling: the `he.escape` encoder, tag stripping with `/<[^>]*>/g`,
    and the first-match search of a lazy `open(.*?)close` expression. */
module Html {
  import opened Strings

  /** The characters `he.escape` replaces by a character reference. */
  predicate IsEscaped(c: char) {
    c == '&' || c == '<' || c == '>' || c == '"' || c == '\'' || c == '`'
  }

  /** The characters that can never appear in escaped text. */
  predicate IsMarkup(c: char) {
    c == '<' || c == '>' || c == '"' || c == '\'' || c == '`'
  }

  predicate NoMarkup(s: string) {
    forall i :: 0 <= i < |s| ==> !IsMarkup(s[i])
  }

  predicate NoLt(s: string) {
    forall i :: 0 <= i < |s| ==> s[i] != '<'
  }

  /** The reference `he.escape` writes for one character. */
  function EscapeChar(c: char): (r: string)
    ensures NoMarkup(r) && |r| >= 1
    ensures IsEscaped(c) <==> r != [c]
  {
    match c
    case '&' => "&amp;"
    case '<' => "&lt;"
    case '>' => "&gt;"
    case '"' => "&quot;"
    case '\'' => "&#x27;"
    case '`' => "&#x60;"
    case _ => [c]
  }

  /** `he.escape(s)`: every character of the six replaced by its reference. */
  function Escape(s: string): (r: string)
    ensures NoMarkup(r) && NoLt(r)
    ensures |r| >= |s|
  {
    if s == [] then [] else EscapeChar(s[0]) + Escape(s[1..])
  }

  lemma {:induction false} EscapeAppend(a: string, b: string)
    ensures Escape(a + b) == Escape(a) + Escape(b)
  {
    if a == [] {
      assert a + b == b;
    } else {
      var e := EscapeChar(a[0]);
      assert Escape(a + b) == e + Escape(a[1..] + b) by {
        assert (a + b)[0] == a[0];
        assert (a + b)[1..] == a[1..] + b;
      }
      assert Escape(a[1..] + b) == Escape(a[1..]) + Escape(b) by {
        EscapeAppend(a[1..], b);
      }
      assert Escape(a) == e + Escape(a[1..]);
    }
  }

  /** Escaping changes exactly the text that holds one of the six characters. */
  lemma {:induction false} EscapeUnchangedIff(s: string)
    ensures Escape(s) == s <==> forall i :: 0 <= i < |s| ==> !IsEscaped(s[i])
  {
    if s != [] {
      EscapeUnchangedIff(s[1..]);
      var e := EscapeChar(s[0]);
      if IsEscaped(s[0]) {
        assert |e| > 1 by {
          assert e != [s[0]];
        }
      } else {
        assert forall i :: 1 <= i < |s| ==> s[1..][i - 1] == s[i];
      }
      assert Escape(s) == e + Escape(s[1..]);
      assert s == [s[0]] + s[1..];
    }
  }

  /** The character whose reference starts `t`, and the reference's length,
      for the six references `Escape` writes. */
  function DecodeRef(t: string): Option<(char, nat)> {
    if At(t, 0, "&amp;") then Some(('&', 5))
    else if At(t, 0, "&lt;") then Some(('<', 4))
    else if At(t, 0, "&gt;") then Some(('>', 4))
    else if At(t, 0, "&quot;") then Some(('"', 6))
    else if At(t, 0, "&#x27;") then Some(('\'', 6))
    else if At(t, 0, "&#x60;") then Some(('`', 6))
    else None
  }

  /** The inverse of `Escape`: it decodes exactly the six references `Escape`
      writes and copies every other character. */
  function Unescape(t: string): string
    decreases |t|
  {
    if t == [] then []
    else match DecodeRef(t)
      case Some((c, n)) => if n <= |t| then [c] + Unescape(t[n..]) else []
      case None => [t[0]] + Unescape(t[1..])
  }

  lemma DecodeRefOfEscaped(c: char, rest: string)
    ensures DecodeRef(EscapeChar(c) + rest) == if IsEscaped(c) then Some((c, |EscapeChar(c)|)) else None
  {
    var t := EscapeChar(c) + rest;
    match c
    case '&' => assert t[..5] == "&amp;";
    case '<' => assert t[..4] == "&lt;" && t[1] == 'l';
    case '>' => assert t[..4] == "&gt;" && t[1] == 'g';
    case '"' => assert t[..6] == "&quot;" && t[1] == 'q';
    case '\'' => assert t[..6] == "&#x27;" && t[1] == '#' && t[3] == '2';
    case '`' => assert t[..6] == "&#x60;" && t[1] == '#' && t[3] == '6';
    case _ => assert t[0] == c;
  }

  lemma UnescapeStep(c: char, rest: string)
    ensures Unescape(EscapeChar(c) + rest) == [c] + Unescape(rest)
  {
    var t := EscapeChar(c) + rest;
    DecodeRefOfEscaped(c, rest);
    assert t[|EscapeChar(c)|..] == rest;
  }

  /** Escaping loses nothing: the original text can be read back. */
  lemma {:induction false} UnescapeEscape(s: string)
    ensures Unescape(Escape(s)) == s
  {
    if s != [] {
      UnescapeStep(s[0], Escape(s[1..]));
      UnescapeEscape(s[1..]);
    }
  }

  /** No `<` of the text is followed, anywhere later, by a `>`. */
  predicate NoTagPair(s: string) {
    forall i, j :: 0 <= i < j < |s| && s[i] == '<' ==> s[j] != '>'
  }

  /** `s.replace(/<[^>]*>/g, "")`: each `<` and everything up to the next `>`
      goes; a `<` with no `>` after it stays, and then so does all the rest. */
  function StripTags(s: string): (r: string)
    decreases |s|
    ensures |r| <= |s|
  {
    if s == [] then []
    else if s[0] == '<' then
      match IndexOf(s, ">", 1)
      case Some(k) => StripTags(s[k + 1..])
      case None => s
    else [s[0]] + StripTags(s[1..])
  }

  /** Stripping leaves no tag: no `<` is followed by a `>`. */
  lemma {:induction false} StripTagsClean(s: string)
    ensures NoTagPair(StripTags(s))
    decreases |s|
  {
    if s == [] {
    } else if s[0] == '<' {
      match IndexOf(s, ">", 1)
      case Some(k) => StripTagsClean(s[k + 1..]);
      case None =>
        assert forall j :: 1 <= j < |s| ==> !At(s, j, ">") ==> s[j] != '>';
    } else {
      StripTagsClean(s[1..]);
      var rest := StripTags(s[1..]);
      var r := [s[0]] + rest;
      assert forall j :: 1 <= j < |r| ==> r[j] == rest[j - 1];
    }
  }

  /** Text with no tag left in it is not changed by stripping. */
  lemma {:induction false} StripTagsNoTags(s: string)
    requires NoTagPair(s)
    ensures StripTags(s) == s
  {
    if s != [] {
      if s[0] == '<' {
        IndexOfAbsent(s, '>', 1);
      } else {
        StripTagsNoTags(s[1..]);
      }
    }
  }

  lemma StripTagsIdempotent(s: string)
    ensures StripTags(StripTags(s)) == StripTags(s)
  {
    StripTagsClean(s);
    StripTagsNoTags(StripTags(s));
  }

  /** Text before which there is no `<` passes through stripping untouched. */
  lemma {:induction false} StripTagsPlain(x: string, y: string)
    requires NoLt(x)
    ensures StripTags(x + y) == x + StripTags(y)
  {
    if x != [] {
      assert (x + y)[1..] == x[1..] + y;
      StripTagsPlain(x[1..], y);
      assert x + StripTags(y) == [x[0]] + (x[1..] + StripTags(y));
    } else {
      assert x + y == y;
    }
  }

  /** A whole tag in front is dropped by stripping. */
  lemma StripTagsTag(tag: string, y: string)
    requires |tag| >= 2 && tag[0] == '<' && tag[|tag| - 1] == '>'
    requires forall i :: 0 < i < |tag| - 1 ==> tag[i] != '>'
    ensures StripTags(tag + y) == StripTags(y)
  {
    var s := tag + y;
    var k := |tag| - 1;
    assert At(s, k, ">");
    forall j | 1 <= j < k ensures !At(s, j, ">") {
      assert s[j] == tag[j];
    }
    IndexOfIsFirst(s, ">", 1, k);
    assert s[k + 1..] == y;
  }

  /** `open` is at `i` in `s`, followed by `g` and then by `close`, where `g` has
      no line terminator and no `close` starts inside it: a match of
      `open(.*?)close` at `i` whose group is `g`. */
  predicate EnclosedAt(s: string, i: int, open: string, close: string, g: string) {
    && At(s, i, open)
    && At(s, i + |open| + |g|, close)
    && s[i + |open|..i + |open| + |g|] == g
    && NoLineTerminator(g)
    && forall k :: i + |open| <= k < i + |open| + |g| ==> !At(s, k, close)
  }

  /** A match at `i` is unique: its group ends at the first `close` after `open`. */
  lemma EnclosedAtFirstClose(s: string, i: nat, open: string, close: string, g: string)
    requires EnclosedAt(s, i, open, close, g)
    ensures IndexOf(s, close, i + |open|) == Some(i + |open| + |g|)
  {
    IndexOfIsFirst(s, close, i + |open|, i + |open| + |g|);
  }

  /** Without a `close` after the `open` at `i`, there is no match at `i` or later. */
  lemma NoEnclosedWithoutClose(s: string, i: nat, open: string, close: string)
    requires IndexOf(s, close, i + |open|).None?
    ensures forall i', g :: i <= i' ==> !EnclosedAt(s, i', open, close, g)
  {
  }

  /** A line terminator before the first `close` leaves no match at `i`. */
  lemma NoEnclosedAcrossLines(s: string, i: nat, open: string, close: string, j: nat)
    requires IndexOf(s, close, i + |open|) == Some(j)
    requires !NoLineTerminator(s[i + |open|..j])
    ensures forall g :: !EnclosedAt(s, i, open, close, g)
  {
    forall g | EnclosedAt(s, i, open, close, g) ensures false {
      EnclosedAtFirstClose(s, i, open, close, g);
    }
  }

  /** No match of `open(.*?)close` starts at an index in `[lo, hi)`. */
  ghost predicate NoEnclosedBetween(s: string, open: string, close: string, lo: int, hi: int) {
    forall i, g :: lo <= i < hi ==> !EnclosedAt(s, i, open, close, g)
  }

  /** No match of `open(.*?)close` starts at `lo` or later. */
  ghost predicate NoEnclosedFrom(s: string, open: string, close: string, lo: int) {
    forall i, g :: lo <= i ==> !EnclosedAt(s, i, open, close, g)
  }

  /** Before the first `open` at or after `from`, and at it when it fails, there is no match. */
  lemma NoEnclosedUpTo(s: string, open: string, close: string, from: nat, i: nat)
    requires IndexOf(s, open, from) == Some(i)
    requires forall g :: !EnclosedAt(s, i, open, close, g)
    ensures NoEnclosedBetween(s, open, close, from, i + 1)
  {
  }

  /** `s.match(/open(.*?)close/)?.[1]` searching from `from`: the group of the
      leftmost match, or `None` when there is none. */
  function FirstEnclosed(s: string, open: string, close: string, from: nat): (r: Option<string>)
    requires |open| > 0 && |close| > 0
    decreases |s| - from
    ensures r.Some? ==>
      exists i :: from <= i && EnclosedAt(s, i, open, close, r.value) && NoEnclosedBetween(s, open, close, from, i)
    ensures r.None? ==> NoEnclosedFrom(s, open, close, from)
  {
    match IndexOf(s, open, from)
    case None => None
    case Some(i) =>
      var start := i + |open|;
      match IndexOf(s, close, start)
      case None =>
        NoEnclosedWithoutClose(s, i, open, close);
        NoEnclosedUpTo(s, open, close, from, i);
        None
      case Some(j) =>
        if NoLineTerminator(s[start..j]) then
          assert EnclosedAt(s, i, open, close, s[start..j]);
          Some(s[start..j])
        else
          NoEnclosedAcrossLines(s, i, open, close, j);
          NoEnclosedUpTo(s, open, close, from, i);
          FirstEnclosed(s, open, close, i + 1)
  }

  /** The group of the first `open(.*?)close` match in `s`, or "" when there is
      none (the `?.[1] || ""` of the source). */
  function EnclosedOrEmpty(s: string, open: string, close: string): (r: string)
    requires |open| > 0 && |close| > 0
    ensures r == [] || exists i :: EnclosedAt(s, i, open, close, r)
    ensures NoEnclosedFrom(s, open, close, 0) ==> r == []
    ensures (exists i, g :: EnclosedAt(s, i, open, close, g)) ==>
      exists i :: EnclosedAt(s, i, open, close, r) && NoEnclosedBetween(s, open, close, 0, i)
  {
    match FirstEnclosed(s, open, close, 0)
    case Some(g) => g
    case None => []
  }
}

/** `parseDat` (server.js:48-56): the raw post log of a thread, one post per
    line written `name<>mail<>date and id<>body<>...`. Each body is escaped,
    then `<br>` tags become line breaks, then reply references `>>n` (escaped,
    `&gt;&gt;n`) become links to post `n`. */
module Dat {
  import opened Strings
  import opened Html

  /** One post: its number (1-based, in line order), author name, date-and-id
      field and the HTML of its body. */
  datatype Post = Post(no: nat, name: string, dateId: string, body: string)

  /** Field `k` of a line, "" when the line has fewer fields (the `=""`
      defaults of the destructuring). */
  function FieldOr(fields: seq<string>, k: nat): (r: string)
    ensures k < |fields| ==> r == fields[k]
    ensures k >= |fields| ==> r == []
  {
    if k < |fields| then fields[k] else []
  }

  /** The longest prefix of `s` made of `\s` characters. */
  function SpaceRun(s: string): (r: string)
    ensures r <= s && forall i :: 0 <= i < |r| ==> IsSpace(r[i])
    ensures |r| == |s| || !IsSpace(s[|r|])
  {
    if |s| > 0 && IsSpace(s[0]) then [s[0]] + SpaceRun(s[1..]) else []
  }

  /** The length of the match of `/<br\s*\/?>/i` at the start of `t`, if any. */
  function BrTagLength(t: string): (r: Option<nat>)
    ensures r.Some? ==> 4 <= r.value <= |t| && t[0] == '<' && t[r.value - 1] == '>'
    ensures r.Some? ==> (t[1] == 'b' || t[1] == 'B') && (t[2] == 'r' || t[2] == 'R')
    ensures r.Some? ==> forall i :: 3 <= i < r.value - 1 ==>
      IsSpace(t[i]) || (i == r.value - 2 && t[i] == '/')
  {
    if |t| >= 3 && t[0] == '<' && (t[1] == 'b' || t[1] == 'B') && (t[2] == 'r' || t[2] == 'R') then
      var n := 3 + |SpaceRun(t[3..])|;
      if n < |t| && t[n] == '>' then Some(n + 1)
      else if n + 1 < |t| && t[n] == '/' && t[n + 1] == '>' then Some(n + 2)
      else None
    else None
  }

  /** `s.replace(/<br\s*\/?>/gi, "\n")`: every `<br>` tag, leftmost first and
      without overlap, becomes a line break. */
  function BrToNewline(s: string): string
    decreases |s|
  {
    if s == [] then []
    else match BrTagLength(s)
      case Some(n) => "\n" + BrToNewline(s[n..])
      case None => [s[0]] + BrToNewline(s[1..])
  }

  /** Text without a `<` has no `<br>` tag to rewrite. */
  lemma {:induction false} BrToNewlineNoLt(s: string)
    requires NoLt(s)
    ensures BrToNewline(s) == s
  {
    if s != [] {
      BrToNewlineNoLt(s[1..]);
    }
  }

  /** A run of `\s` characters followed by a character outside `\s` is the
      whole space run. */
  lemma {:induction false} SpaceRunOf(w: string, z: string)
    requires forall i :: 0 <= i < |w| ==> IsSpace(w[i])
    requires z != [] && !IsSpace(z[0])
    ensures SpaceRun(w + z) == w
  {
    if w == [] {
      assert w + z == z;
    } else {
      assert (w + z)[1..] == w[1..] + z;
      SpaceRunOf(w[1..], z);
    }
  }

  /** Every text `/<br\s*\/?>/i` matches is recognised, with its whole length:
      `<`, `b` or `B`, `r` or `R`, any run of `\s`, an optional `/`, then `>`. */
  lemma BrTagLengthOf(b: char, r: char, w: string, slash: string, y: string)
    requires b == 'b' || b == 'B'
    requires r == 'r' || r == 'R'
    requires forall i :: 0 <= i < |w| ==> IsSpace(w[i])
    requires slash == [] || slash == "/"
    ensures BrTagLength(['<', b, r] + w + slash + ['>'] + y) == Some(3 + |w| + |slash| + 1)
  {
    var t := ['<', b, r] + w + slash + ['>'] + y;
    var z := slash + ['>'] + y;
    assert t[3..] == w + z;
    assert z[0] == '/' || z[0] == '>';
    SpaceRunOf(w, z);
    assert t[3 + |w|..] == z;
  }

  /** On text that starts with a `<br>` tag, the rewrite does replace it. */
  lemma BrToNewlineTag(b: char, r: char, w: string, slash: string, y: string)
    requires b == 'b' || b == 'B'
    requires r == 'r' || r == 'R'
    requires forall i :: 0 <= i < |w| ==> IsSpace(w[i])
    requires slash == [] || slash == "/"
    ensures BrToNewline(['<', b, r] + w + slash + ['>'] + y) == "\n" + BrToNewline(y)
  {
    var t := ['<', b, r] + w + slash + ['>'] + y;
    BrTagLengthOf(b, r, w, slash, y);
    assert t[3 + |w| + |slash| + 1..] == y;
  }

  /** Text without a `<` before a tag is copied, and the rewrite goes on after it. */
  lemma {:induction false} BrToNewlinePlain(x: string, y: string)
    requires NoLt(x)
    ensures BrToNewline(x + y) == x + BrToNewline(y)
  {
    if x == [] {
      assert x + y == y;
    } else {
      var s := x + y;
      assert s[0] == x[0] && s[1..] == x[1..] + y;
      assert BrToNewline(s) == [x[0]] + BrToNewline(s[1..]);
      BrToNewlinePlain(x[1..], y);
      assert x == [x[0]] + x[1..];
      ConsAssoc(x[0], x[1..], BrToNewline(y));
    }
  }

  /** The rewrite runs after escaping, which leaves no `<` behind, so it never
      changes an escaped body. */
  lemma BrRewriteDead(raw: string)
    ensures BrToNewline(Escape(raw)) == Escape(raw)
  {
    BrToNewlineNoLt(Escape(raw));
  }

  /** A reply reference as it reads after escaping: `>>`. */
  const Ref := "&gt;&gt;"

  const AnchorOpen := "<a class=\"anc\" href=\"#r"
  const AnchorMid := "\">&gt;&gt;"
  const AnchorClose := "</a>"

  /** The link written for a reference to post `d`. */
  function Anchor(d: string): string {
    AnchorOpen + (d + (AnchorMid + (d + AnchorClose)))
  }

  /** `s.replace(/&gt;&gt;(\d+)/g, ...)`: every `&gt;&gt;` followed by digits,
      leftmost first and without overlap, becomes a link to the post those
      digits number, showing the reference itself. */
  function Linkify(s: string): string
    decreases |s|
  {
    if s == [] then []
    else if At(s, 0, Ref) && DigitRun(s[|Ref|..]) != [] then
      var d := DigitRun(s[|Ref|..]);
      Anchor(d) + Linkify(s[|Ref| + |d|..])
    else
      [s[0]] + Linkify(s[1..])
  }

  /** The body HTML written for a raw body: escaped, `<br>` tags rewritten, reply
      references linked. The `<br>` rewrite changes nothing, and every reply
      reference of the raw body is linked. */
  function PostBody(raw: string): (r: string)
    ensures r == LinkRaw(raw)
  {
    BrRewriteDead(raw);
    LinkifyEscape(raw);
    Linkify(BrToNewline(Escape(raw)))
  }

  /** A reference, digits and then a non-digit: the whole digit run is linked. */
  lemma LinkifyReference(d: string, rest: string)
    requires d != [] && AllDigits(d)
    requires rest == [] || !IsDigit(rest[0])
    ensures Linkify(Ref + (d + rest)) == Anchor(d) + Linkify(rest)
  {
    var s := Ref + (d + rest);
    assert s[..|Ref|] == Ref;
    var t := s[|Ref|..];
    assert t == d + rest;
    DigitRunOf(d, rest);
    assert s[|Ref| + |d|..] == rest;
  }

  /** Text without `&` is copied as it is. */
  lemma {:induction false} LinkifyPlain(x: string, y: string)
    requires forall i :: 0 <= i < |x| ==> x[i] != '&'
    ensures Linkify(x + y) == x + Linkify(y)
  {
    if x == [] {
      assert x + y == y;
    } else {
      var s := x + y;
      assert s[0] == x[0];
      NotAtHead(s, Ref);
      assert s[1..] == x[1..] + y;
      LinkifyPlain(x[1..], y);
      var l := Linkify(y);
      assert x == [x[0]] + x[1..];
      ConsAssoc(x[0], x[1..], l);
    }
  }

  /** Text without a reference followed by a digit is not changed. */
  lemma {:induction false} LinkifyUnchanged(s: string)
    requires forall k :: !(At(s, k, Ref) && k + |Ref| < |s| && IsDigit(s[k + |Ref|]))
    ensures Linkify(s) == s
  {
    if s != [] {
      forall k | true ensures !(At(s[1..], k, Ref) && k + |Ref| < |s[1..]| && IsDigit(s[1..][k + |Ref|])) {
        if 0 <= k && At(s[1..], k, Ref) && k + |Ref| < |s[1..]| {
          assert s[1..][k..k + |Ref|] == s[k + 1..k + 1 + |Ref|];
          assert At(s, k + 1, Ref);
          assert s[1..][k + |Ref|] == s[k + 1 + |Ref|];
        }
      }
      LinkifyUnchanged(s[1..]);
    }
  }

  lemma AnchorOpenNoGt()
    ensures forall i :: 0 <= i < |AnchorOpen| ==> AnchorOpen[i] != '>' && AnchorOpen[i] != '&'
  {
  }

  /** The opening tag of a link. */
  function AnchorTag(d: string): string {
    AnchorOpen + (d + "\">")
  }

  lemma AnchorTagShape(d: string)
    requires AllDigits(d)
    ensures var tag := AnchorTag(d);
      && |tag| >= 2 && tag[0] == '<' && tag[|tag| - 1] == '>'
      && forall i :: 0 < i < |tag| - 1 ==> tag[i] != '>'
  {
    var tag := AnchorTag(d);
    AnchorOpenNoGt();
    forall i | 0 < i < |tag| - 1 ensures tag[i] != '>' {
      if |AnchorOpen| <= i < |AnchorOpen| + |d| {
        assert tag[i] == d[i - |AnchorOpen|];
      }
    }
  }

  lemma AnchorParts(d: string, y: string)
    ensures Anchor(d) + y == AnchorTag(d) + ((Ref + d) + (AnchorClose + y))
  {
  }

  lemma StripAnchorClose(y: string)
    ensures StripTags(AnchorClose + y) == StripTags(y)
  {
    StripTagsTag(AnchorClose, y);
  }

  lemma ShownNoLt(d: string)
    requires AllDigits(d)
    ensures NoLt(Ref + d)
  {
    var shown := Ref + d;
    forall i | 0 <= i < |shown| ensures shown[i] != '<' {
      if i >= |Ref| {
        assert shown[i] == d[i - |Ref|];
      }
    }
  }

  lemma StripAnchorText(d: string, y: string)
    requires AllDigits(d)
    ensures StripTags((Ref + d) + (AnchorClose + y)) == Ref + (d + StripTags(y))
  {
    var shown := Ref + d;
    var z := StripTags(y);
    assert StripTags(shown + (AnchorClose + y)) == shown + StripTags(AnchorClose + y) by {
      ShownNoLt(d);
      StripTagsPlain(shown, AnchorClose + y);
    }
    assert StripTags(AnchorClose + y) == z by {
      StripAnchorClose(y);
    }
    assert shown + z == Ref + (d + z);
  }

  /** Stripping the tags from a link leaves the reference it was made from. */
  lemma StripAnchor(d: string, y: string)
    requires AllDigits(d)
    ensures StripTags(Anchor(d) + y) == Ref + (d + StripTags(y))
  {
    AnchorTagShape(d);
    AnchorParts(d, y);
    StripTagsTag(AnchorTag(d), (Ref + d) + (AnchorClose + y));
    StripAnchorText(d, y);
  }

  /** Linking adds tags only: stripping them gives back the linked text. */
  /** One step of LinkifyStrip at a reference: the inserted link is stripped. */
  lemma LinkifyStripRef(s: string, d: string, rest: string)
    requires At(s, 0, Ref) && d == DigitRun(s[|Ref|..]) && d != []
    requires rest == s[|Ref| + |d|..]
    requires StripTags(Linkify(rest)) == rest
    ensures StripTags(Linkify(s)) == s
  {
    assert s == Ref + (d + rest) by {
      assert s[..|Ref|] == Ref;
      assert s[|Ref|..] == d + rest;
    }
    assert Linkify(s) == Anchor(d) + Linkify(rest) by {
      assert rest == [] || !IsDigit(rest[0]) by {
        assert s[|Ref|..][|d|..] == rest;
      }
      LinkifyReference(d, rest);
    }
    assert StripTags(Anchor(d) + Linkify(rest)) == Ref + (d + rest) by {
      StripAnchor(d, Linkify(rest));
    }
  }

  /** One step of LinkifyStrip at any other character: it is copied. */
  lemma LinkifyStripChar(s: string)
    requires s != [] && s[0] != '<'
    requires !(At(s, 0, Ref) && DigitRun(s[|Ref|..]) != [])
    requires StripTags(Linkify(s[1..])) == s[1..]
    ensures StripTags(Linkify(s)) == s
  {
    assert Linkify(s) == [s[0]] + Linkify(s[1..]);
    assert StripTags([s[0]] + Linkify(s[1..])) == [s[0]] + s[1..] by {
      StripTagsPlain([s[0]], Linkify(s[1..]));
    }
  }

  lemma {:induction false} LinkifyStrip(s: string)
    requires NoLt(s)
    ensures StripTags(Linkify(s)) == s
  {
    if s != [] {
      if At(s, 0, Ref) && DigitRun(s[|Ref|..]) != [] {
        var d := DigitRun(s[|Ref|..]);
        var rest := s[|Ref| + |d|..];
        LinkifyStrip(rest);
        LinkifyStripRef(s, d, rest);
      } else {
        LinkifyStrip(s[1..]);
        LinkifyStripChar(s);
      }
    }
  }


  /** A link `open d mid d close` at the start of `s` whose two digit runs `d`
      agree, if one is there. */
  function LinkAt(s: string, open: string, mid: string, close: string): Option<string> {
    if At(s, 0, open) then
      var d := DigitRun(s[|open|..]);
      if d != [] && At(s, |open| + |d|, mid + (d + close)) then Some(d) else None
    else None
  }

  /** What `LinkAt` finds is a whole link at the start of `s`. */
  lemma LinkAtShape(s: string, open: string, mid: string, close: string)
    ensures var r := LinkAt(s, open, mid, close);
      r.Some? ==> r.value != [] && AllDigits(r.value) && open + (r.value + (mid + (r.value + close))) <= s
  {
    if LinkAt(s, open, mid, close).Some? {
      var d := DigitRun(s[|open|..]);
      var k := |open| + |d|;
      assert s[..k] == open + d by {
        assert s[..|open|] == open;
        assert s[|open|..k] == d;
      }
      assert s[..k + |mid + (d + close)|] == s[..k] + s[k..k + |mid + (d + close)|];
    }
  }

  /** A link at the start is found, with its digits. */
  lemma LinkAtOf(open: string, mid: string, close: string, d: string, y: string)
    requires d != [] && AllDigits(d)
    requires mid != [] && !IsDigit(mid[0])
    ensures LinkAt(open + (d + (mid + (d + close))) + y, open, mid, close) == Some(d)
  {
    var s := open + (d + (mid + (d + close))) + y;
    var t := mid + (d + close) + y;
    assert s == open + (d + t);
    assert At(s, 0, open) by {
      assert s[..|open|] == open;
    }
    assert DigitRun(s[|open|..]) == d by {
      assert s[|open|..] == d + t;
      DigitRunOf(d, t);
    }
    var k := |open| + |d|;
    assert At(s, k, mid + (d + close)) by {
      assert s[k..] == t;
      assert s[k..k + |mid + (d + close)|] == t[..|mid + (d + close)|];
    }
  }

  /** A text not starting with the link's first character starts no link. */
  lemma LinkAtPlain(s: string, open: string, mid: string, close: string)
    requires |open| > 0 && (s == [] || s[0] != open[0])
    ensures LinkAt(s, open, mid, close) == None
  {
    NotAtHead(s, open);
  }

  /** The reference number of a link to a post at the start of `s`, if one is
      there: its target and its text name the same digits. */
  function AnchorAt(s: string): (r: Option<string>)
    ensures r.Some? ==> r.value != [] && AllDigits(r.value) && Anchor(r.value) <= s
  {
    LinkAtShape(s, AnchorOpen, AnchorMid, AnchorClose);
    LinkAt(s, AnchorOpen, AnchorMid, AnchorClose)
  }

  /** Every `<` of `s` begins a whole link to a post, and the links do not overlap:
      the only markup in a body is reply links. */
  predicate AnchorsOnly(s: string)
    decreases |s|
  {
    if s == [] then true
    else match AnchorAt(s)
      case Some(d) => AnchorsOnly(s[|Anchor(d)|..])
      case None => s[0] != '<' && AnchorsOnly(s[1..])
  }

  lemma AnchorAtAnchor(d: string, y: string)
    requires d != [] && AllDigits(d)
    ensures AnchorAt(Anchor(d) + y) == Some(d)
  {
    assert AnchorMid[0] == '"';
    LinkAtOf(AnchorOpen, AnchorMid, AnchorClose, d, y);
  }

  lemma AnchorAtPlain(c: char, y: string)
    requires c != '<'
    ensures AnchorAt([c] + y) == None
  {
    assert AnchorOpen[0] == '<';
    LinkAtPlain([c] + y, AnchorOpen, AnchorMid, AnchorClose);
  }

  /** Text without `<` holds no markup at all, so in particular nothing but links. */
  lemma {:induction false} PlainAnchorsOnly(s: string)
    requires NoLt(s)
    decreases |s|
    ensures AnchorsOnly(s)
  {
    if s != [] {
      assert [s[0]] + s[1..] == s;
      AnchorAtPlain(s[0], s[1..]);
      PlainAnchorsOnly(s[1..]);
    }
  }

  /** Linked escaped text holds no markup but the reply links. */
  lemma {:induction false} LinkifySafe(s: string)
    requires NoLt(s)
    ensures AnchorsOnly(Linkify(s))
  {
    if s != [] {
      if At(s, 0, Ref) && DigitRun(s[|Ref|..]) != [] {
        var d := DigitRun(s[|Ref|..]);
        var rest := s[|Ref| + |d|..];
        LinkifySafe(rest);
        AnchorAtAnchor(d, Linkify(rest));
        assert (Anchor(d) + Linkify(rest))[|Anchor(d)|..] == Linkify(rest);
      } else {
        LinkifySafe(s[1..]);
        AnchorAtPlain(s[0], Linkify(s[1..]));
        assert ([s[0]] + Linkify(s[1..]))[1..] == Linkify(s[1..]);
      }
    }
  }

  /** A body is shown faithfully and safely: its only markup is reply links, and
      removing them gives the escaped body, whose references decode to the raw
      body. */
  lemma PostBodyFaithful(raw: string)
    ensures StripTags(PostBody(raw)) == Escape(raw)
    ensures Unescape(StripTags(PostBody(raw))) == raw
    ensures AnchorsOnly(PostBody(raw))
  {
    BrRewriteDead(raw);
    LinkifyStrip(Escape(raw));
    LinkifySafe(Escape(raw));
    UnescapeEscape(raw);
  }

  /** Post `no` read from one line of the log. */
  function DatPost(line: string, no: nat): Post {
    var fields := Split(line, "<>");
    Post(no, FieldOr(fields, 0), FieldOr(fields, 2), PostBody(FieldOr(fields, 3)))
  }

  /** `parseDat(text)`: one post per non-empty line, numbered 1, 2, ... in order. */
  function ParseDat(text: string): (r: seq<Post>)
    ensures |r| == |NonEmptyLines(text)|
    ensures forall i :: 0 <= i < |r| ==> r[i].no == i + 1
  {
    var lines := NonEmptyLines(text);
    seq(|lines|, i requires 0 <= i < |lines| => DatPost(lines[i], i + 1))
  }

  /** The post of one line: the name, the date and id, and the body field shown
      faithfully with reply links as its only markup. */
  lemma DatPostFaithful(line: string, no: nat, p: Post)
    requires p == DatPost(line, no)
    ensures var fields := Split(line, "<>");
      && p.no == no
      && p.name == FieldOr(fields, 0)
      && p.dateId == FieldOr(fields, 2)
      && StripTags(p.body) == Escape(FieldOr(fields, 3))
      && Unescape(StripTags(p.body)) == FieldOr(fields, 3)
      && AnchorsOnly(p.body)
  {
    PostBodyFaithful(FieldOr(Split(line, "<>"), 3));
  }

  /** Every post is read from its own line alone; its body shows the line's body
      field exactly, with reply links as its only markup. */
  lemma ParseDatPost(text: string, i: nat)
    requires i < |ParseDat(text)|
    ensures var fields := Split(NonEmptyLines(text)[i], "<>"); var p := ParseDat(text)[i];
      && p.name == FieldOr(fields, 0)
      && p.dateId == FieldOr(fields, 2)
      && StripTags(p.body) == Escape(FieldOr(fields, 3))
      && Unescape(StripTags(p.body)) == FieldOr(fields, 3)
      && AnchorsOnly(p.body)
  {
    var line := NonEmptyLines(text)[i];
    assert ParseDat(text)[i] == DatPost(line, i + 1);
    DatPostFaithful(line, i + 1, ParseDat(text)[i]);
  }

  lemma DatPostRenumber(line: string, n: nat, m: nat)
    ensures DatPost(line, n).(no := m) == DatPost(line, m)
  {
  }

  /** Post `i` of a log is the post of its line `i`, numbered `i + 1`. */
  lemma ParseDatAt(text: string, i: nat)
    requires i < |NonEmptyLines(text)|
    ensures ParseDat(text)[i] == DatPost(NonEmptyLines(text)[i], i + 1)
  {
  }

  lemma ParseDatAppendFront(a: string, b: string)
    ensures |ParseDat(a + ("\n" + b))| == |ParseDat(a)| + |ParseDat(b)|
    ensures ParseDat(a + ("\n" + b))[..|ParseDat(a)|] == ParseDat(a)
  {
    NonEmptyLinesAppend(a, b);
    var la := NonEmptyLines(a);
    var l := NonEmptyLines(a + ("\n" + b));
    forall i | 0 <= i < |la| ensures ParseDat(a + ("\n" + b))[i] == ParseDat(a)[i] {
      assert l[i] == la[i];
      ParseDatAt(a + ("\n" + b), i);
      ParseDatAt(a, i);
    }
  }

  lemma ParseDatAppendBack(a: string, b: string, i: nat)
    requires i < |ParseDat(b)|
    ensures |ParseDat(a + ("\n" + b))| == |ParseDat(a)| + |ParseDat(b)|
    ensures ParseDat(a + ("\n" + b))[|ParseDat(a)| + i] == ParseDat(b)[i].(no := ParseDat(b)[i].no + |ParseDat(a)|)
  {
    NonEmptyLinesAppend(a, b);
    var la := NonEmptyLines(a);
    var lb := NonEmptyLines(b);
    var l := NonEmptyLines(a + ("\n" + b));
    assert l[|la| + i] == lb[i];
    ParseDatAt(a + ("\n" + b), |la| + i);
    ParseDatAt(b, i);
    DatPostRenumber(lb[i], i + 1, |la| + i + 1);
  }

  /** Lines are read independently and numbering runs on: the posts of two logs
      joined by a line break are the posts of the first, then those of the second
      with their numbers moved past the first's. */
  lemma ParseDatAppend(a: string, b: string)
    ensures var pa := ParseDat(a); var pb := ParseDat(b); var p := ParseDat(a + ("\n" + b));
      && |p| == |pa| + |pb|
      && p[..|pa|] == pa
      && forall i :: 0 <= i < |pb| ==> p[|pa| + i] == pb[i].(no := pb[i].no + |pa|)
  {
    NonEmptyLinesAppend(a, b);
    ParseDatAppendFront(a, b);
    forall i | 0 <= i < |ParseDat(b)|
      ensures ParseDat(a + ("\n" + b))[|ParseDat(a)| + i] == ParseDat(b)[i].(no := ParseDat(b)[i].no + |ParseDat(a)|)
    {
      ParseDatAppendBack(a, b, i);
    }
  }

  /** A line of four fields free of `<>`, optionally followed by `<>` and more
      fields (the thread title on the first line, which is ignored): the post
      takes the name, the date and the body from their fields and drops the mail. */
  lemma DatWellFormedLine(name: string, mail: string, date: string, body: string, tail: string, no: nat)
    requires !Contains(name, "<>") && !Contains(mail, "<>") && !Contains(date, "<>") && !Contains(body, "<>")
    requires tail == [] || At(tail, 0, "<>")
    ensures DatPost(name + ("<>" + (mail + ("<>" + (date + ("<>" + (body + tail)))))), no)
      == Post(no, name, date, PostBody(body))
  {
    assert HeadUnique("<>");
    var l3 := body + tail;
    var l2 := date + ("<>" + l3);
    var l1 := mail + ("<>" + l2);
    SplitFirstPiece(name, "<>", l1);
    SplitFirstPiece(mail, "<>", l2);
    SplitFirstPiece(date, "<>", l3);
    if tail == [] {
      assert l3 == body;
      SplitSingle(body, "<>");
    } else {
      assert tail == "<>" + tail[2..];
      SplitFirstPiece(body, "<>", tail[2..]);
    }
  }

  /** Escaping a reference `>>d` writes its two `>` as references. */
  lemma EscapeRefDigits(d: string)
    requires AllDigits(d)
    ensures Escape(">>" + d) == Ref + d
  {
    EscapeUnchangedIff(d);
    assert Escape(">>") == Ref;
    EscapeAppend(">>", d);
  }

  /** The escape of a text starts with a digit exactly when the text does. */
  lemma EscapeHeadDigit(t: string)
    requires t != []
    ensures Escape(t) != [] && (IsDigit(Escape(t)[0]) <==> IsDigit(t[0]))
  {
    assert Escape(t) == EscapeChar(t[0]) + Escape(t[1..]);
  }

  /** Escaped text starts with `&gt;` only where the text starts with `>`. */
  lemma EscapeStartsGt(t: string)
    requires At(Escape(t), 0, "&gt;")
    ensures t != [] && t[0] == '>'
  {
    var y := Escape(t);
    assert y[..4][0] == y[0] && y[..4][1] == y[1];
    if t != [] {
      var e := EscapeChar(t[0]);
      assert y == e + Escape(t[1..]);
      assert y[0] == e[0];
      if |e| >= 2 {
        assert y[1] == e[1];
      }
    }
  }

  /** The reference written for one of the six characters starts with `&`, has
      no other `&`, and goes on with `g` only for `>`. */
  lemma EscapeCharRef(c: char)
    requires IsEscaped(c)
    ensures var e := EscapeChar(c);
      && |e| >= 2 && e[0] == '&' && (e[1] == 'g' <==> c == '>')
      && forall i :: 1 <= i < |e| ==> e[i] != '&'
  {
  }

  /** No reference `&gt;&gt;d` starts at the escape of a character that does not
      start a reference `>>d`. */
  lemma NoRefAtEscapeChar(c: char, t: string, s: string)
    requires !(c == '>' && t != [] && t[0] == '>' && DigitRun(t[1..]) != [])
    requires s == EscapeChar(c) + Escape(t)
    ensures !(At(s, 0, Ref) && DigitRun(s[|Ref|..]) != [])
  {
    var y := Escape(t);
    if At(s, 0, Ref) {
      assert s[..|Ref|][0] == s[0] && s[..|Ref|][1] == s[1];
      if IsEscaped(c) {
        EscapeCharRef(c);
      }
      assert c == '>';
      assert At(y, 0, "&gt;") by {
        assert y[..4] == s[4..8];
      }
      EscapeStartsGt(t);
      assert y == "&gt;" + Escape(t[1..]);
      assert s[|Ref|..] == Escape(t[1..]);
      if t[1..] != [] {
        EscapeHeadDigit(t[1..]);
      }
    }
  }

  /** Text that starts with an `&` not opening a reference, and holds no other
      `&`, is copied as it is. */
  lemma LinkifyAmpersand(e: string, y: string)
    requires e != [] && e[0] == '&'
    requires forall i :: 1 <= i < |e| ==> e[i] != '&'
    requires !(At(e + y, 0, Ref) && DigitRun((e + y)[|Ref|..]) != [])
    ensures Linkify(e + y) == e + Linkify(y)
  {
    var s := e + y;
    var tail := e[1..];
    assert Linkify(s) == [s[0]] + Linkify(s[1..]);
    assert s[1..] == tail + y;
    assert forall i :: 0 <= i < |tail| ==> tail[i] != '&' by {
      assert forall i :: 0 <= i < |tail| ==> tail[i] == e[i + 1];
    }
    LinkifyPlain(tail, y);
    assert e == [s[0]] + tail;
    ConsAssoc(s[0], tail, Linkify(y));
  }

  /** A character that does not start a reference `>>d` is escaped, and the scan
      goes on right after its escape. */
  lemma LinkifyEscapeChar(c: char, t: string)
    requires !(c == '>' && t != [] && t[0] == '>' && DigitRun(t[1..]) != [])
    ensures Linkify(EscapeChar(c) + Escape(t)) == EscapeChar(c) + Linkify(Escape(t))
  {
    var e := EscapeChar(c);
    var y := Escape(t);
    if !IsEscaped(c) {
      assert e == [c];
      LinkifyPlain(e, y);
    } else {
      EscapeCharRef(c);
      NoRefAtEscapeChar(c, t, e + y);
      LinkifyAmpersand(e, y);
    }
  }

  /** Reply linking stated on the raw body: every `>>` followed by digits,
      leftmost first and without overlap, becomes the link to the post its whole
      digit run numbers, and every other character is escaped. */
  function LinkRaw(raw: string): string
    decreases |raw|
  {
    if raw == [] then []
    else if At(raw, 0, ">>") && DigitRun(raw[2..]) != [] then
      var d := DigitRun(raw[2..]);
      Anchor(d) + LinkRaw(raw[2 + |d|..])
    else
      EscapeChar(raw[0]) + LinkRaw(raw[1..])
  }

  /** A raw body starting with a reference `>>d`: its escape starts with the
      escaped reference, and what follows does not start with a digit. */
  lemma EscapeAtReference(raw: string, d: string, rest: string)
    requires At(raw, 0, ">>") && d == DigitRun(raw[2..]) && d != []
    requires rest == raw[2 + |d|..]
    ensures Escape(raw) == Ref + (d + Escape(rest))
    ensures Escape(rest) == [] || !IsDigit(Escape(rest)[0])
  {
    assert raw == (">>" + d) + rest by {
      assert raw[..2] == ">>";
      assert raw[2..][..|d|] == d;
    }
    assert Escape(raw) == Ref + (d + Escape(rest)) by {
      EscapeAppend(">>" + d, rest);
      EscapeRefDigits(d);
    }
    if rest != [] {
      assert rest[0] == raw[2..][|d|];
      EscapeHeadDigit(rest);
    }
  }

  /** Linking the escaped body links every reference of the raw body. */
  lemma {:induction false} LinkifyEscape(raw: string)
    ensures Linkify(Escape(raw)) == LinkRaw(raw)
    decreases |raw|
  {
    if raw == [] {
    } else if At(raw, 0, ">>") && DigitRun(raw[2..]) != [] {
      var d := DigitRun(raw[2..]);
      var rest := raw[2 + |d|..];
      assert Linkify(Escape(raw)) == Anchor(d) + Linkify(Escape(rest)) by {
        EscapeAtReference(raw, d, rest);
        LinkifyReference(d, Escape(rest));
      }
      LinkifyEscape(rest);
    } else {
      var t := raw[1..];
      assert Linkify(Escape(raw)) == EscapeChar(raw[0]) + Linkify(Escape(t)) by {
        assert Escape(raw) == EscapeChar(raw[0]) + Escape(t);
        if raw[0] == '>' && t != [] && t[0] == '>' {
          assert At(raw, 0, ">>") by {
            assert raw[..2] == [raw[0], t[0]];
          }
          assert raw[2..] == t[1..];
        }
        LinkifyEscapeChar(raw[0], t);
      }
      LinkifyEscape(t);
    }
  }

  /** Escaping plain text and a reference `>>d` escapes the reference alone. */
  lemma EscapeReference(text: string, d: string)
    requires forall i :: 0 <= i < |text| ==> !IsEscaped(text[i])
    requires AllDigits(d)
    ensures Escape(text + (">>" + d)) == text + (Ref + d)
  {
    var e := ">>" + d;
    EscapeRefDigits(d);
    EscapeUnchangedIff(text);
    EscapeAppend(text, e);
  }

  /** A body ending in a reply reference: plain text before it is kept and the
      reference to post `d` becomes the link to it. */
  lemma PostBodyReference(text: string, d: string)
    requires forall i :: 0 <= i < |text| ==> !IsEscaped(text[i])
    requires d != [] && AllDigits(d)
    ensures PostBody(text + (">>" + d)) == text + Anchor(d)
  {
    var reference := Ref + d;
    var e := Escape(text + (">>" + d));
    EscapeReference(text, d);
    assert BrToNewline(e) == e by {
      BrRewriteDead(text + (">>" + d));
    }
    assert Linkify(reference) == Anchor(d) by {
      LinkifyReference(d, "");
      assert d + "" == d;
      assert Linkify("") == "";
    }
    assert Linkify(e) == text + Anchor(d) by {
      LinkifyPlain(text, reference);
    }
  }
}

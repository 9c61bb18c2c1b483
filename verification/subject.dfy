/** `parseSubject` (server.js:38-46): the thread index `subject.txt` of a board,
    one thread per line written `<id>.dat<>Title (count)`. */
module Subject {
  import opened Strings
  import Url

  /** One entry of the index: the thread id, its title and its reply count as
      the digits the index gives ("" when the title carries no count). */
  datatype Thread = Thread(dat: string, title: string, resCount: string)

  /** `rest` has the form `title ws ( count )` that `/^(.*)\s\((\d+)\)$/`
      matches, with these parts. */
  predicate CountPattern(rest: string, title: string, ws: char, count: string) {
    && rest == title + ([ws] + ("(" + (count + ")")))
    && NoLineTerminator(title)
    && IsSpace(ws)
    && count != [] && AllDigits(count)
  }

  /** The two groups of `rest.match(/^(.*)\s\((\d+)\)$/)`, or `(rest, "")` when it
      does not match: the count is the digits between the last `(` and the
      closing `)` at the very end. */
  function SplitReplyCount(rest: string): (r: (string, string))
    ensures r.1 == [] ==> r.0 == rest
    ensures r.1 != [] ==> |r.0| < |rest| && CountPattern(rest, r.0, rest[|r.0|], r.1)
  {
    if |rest| > 0 && rest[|rest| - 1] == ')' then
      var body := rest[..|rest| - 1];
      var d := DigitSuffix(body);
      var k := |body| - |d|;
      if d != [] && k >= 2 && body[k - 1] == '(' && IsSpace(body[k - 2]) && NoLineTerminator(body[..k - 2]) then
        assert rest == body[..k - 2] + ([body[k - 2]] + ("(" + (d + ")")));
        (body[..k - 2], d)
      else
        (rest, [])
    else
      (rest, [])
  }

  /** Whenever the expression matches, `SplitReplyCount` finds exactly its groups:
      together with the contract above, the count is empty exactly when there is
      no match. */
  lemma SplitReplyCountComplete(rest: string, title: string, ws: char, count: string)
    requires CountPattern(rest, title, ws, count)
    ensures SplitReplyCount(rest) == (title, count)
  {
    var body := rest[..|rest| - 1];
    var x := title + [ws] + "(";
    assert rest[|rest| - 1] == ')' && body == x + count by {
      assert rest == x + count + ")";
    }
    assert DigitSuffix(body) == count by {
      DigitSuffixOf(x, count);
    }
    var k := |body| - |count|;
    assert k == |x| && body[k - 1] == '(' && body[k - 2] == ws && body[..k - 2] == title by {
      assert body[..k] == x;
    }
  }

  /** A title without a count suffix is kept whole, with an empty count. */
  lemma SplitReplyCountNoMatch(rest: string)
    requires forall title, ws, count :: !CountPattern(rest, title, ws, count)
    ensures SplitReplyCount(rest) == (rest, [])
  {
  }

  /** One line of the index: `None` (the `null` the source filters out) when the
      file field or the title field before and after the first `<>` is missing or
      empty; otherwise the id is the file field with its first `.dat` removed. */
  function ParseSubjectLine(line: string): (r: Option<Thread>)
    ensures var fields := Split(line, "<>");
      r.None? <==> (fields[0] == [] || |fields| < 2 || fields[1] == [])
    ensures r.Some? ==> r.value.dat == RemoveFirst(Split(line, "<>")[0], ".dat")
    ensures r.Some? ==> (r.value.title, r.value.resCount) == SplitReplyCount(Split(line, "<>")[1])
  {
    var fields := Split(line, "<>");
    if fields[0] == [] || |fields| < 2 || fields[1] == [] then None
    else
      var (title, count) := SplitReplyCount(fields[1]);
      Some(Thread(RemoveFirst(fields[0], ".dat"), title, count))
  }

  /** The entries of the lines that parse, in order. */
  function ParseLines(lines: seq<string>): seq<Thread> {
    if lines == [] then []
    else
      var head := match ParseSubjectLine(lines[0]) case Some(t) => [t] case None => [];
      head + ParseLines(lines[1..])
  }

  /** `parseSubject(text)`: the entries of the non-empty lines that parse. */
  function ParseSubject(text: string): seq<Thread> {
    ParseLines(NonEmptyLines(text))
  }

  lemma {:induction false} ParseLinesAppend(xs: seq<string>, ys: seq<string>)
    ensures ParseLines(xs + ys) == ParseLines(xs) + ParseLines(ys)
  {
    if xs == [] {
      assert xs + ys == ys;
    } else {
      assert (xs + ys)[1..] == xs[1..] + ys;
      ParseLinesAppend(xs[1..], ys);
    }
  }

  /** Lines are parsed independently: the index of two texts joined by a line
      break is the index of the first followed by that of the second. */
  lemma ParseSubjectAppend(a: string, b: string)
    ensures ParseSubject(a + ("\n" + b)) == ParseSubject(a) + ParseSubject(b)
  {
    NonEmptyLinesAppend(a, b);
    ParseLinesAppend(NonEmptyLines(a), NonEmptyLines(b));
  }

  /** A text of one line gives that line's entry, or nothing. */
  lemma ParseSubjectSingle(line: string)
    requires forall i :: 0 <= i < |line| ==> line[i] != '\n'
    ensures ParseSubject(line) == match ParseSubjectLine(line) case Some(t) => [t] case None => []
  {
    NonEmptyLinesSingle(line);
    if line == [] {
      SplitSingle([], "<>");
    } else {
      assert ParseLines([line])[..] == ParseLines([line]);
      assert [line][1..] == [];
    }
  }

  /** `<>` cannot overlap itself. */
  lemma FieldSeparatorHeadUnique()
    ensures HeadUnique("<>")
  {
  }

  /** A well-formed line, `file<>rest` optionally followed by `<>` and further
      fields (which are ignored), gives the thread with id `file` less its first
      `.dat` and the title and count read off `rest`. */
  lemma ParseWellFormedLine(file: string, rest: string, tail: string)
    requires file != [] && !Contains(file, "<>")
    requires rest != [] && !Contains(rest, "<>")
    requires tail == [] || At(tail, 0, "<>")
    ensures ParseSubjectLine(file + ("<>" + (rest + tail)))
      == Some(Thread(RemoveFirst(file, ".dat"), SplitReplyCount(rest).0, SplitReplyCount(rest).1))
  {
    FieldSeparatorHeadUnique();
    SplitFirstPiece(file, "<>", rest + tail);
    if tail == [] {
      assert rest + tail == rest;
      SplitSingle(rest, "<>");
    } else {
      assert tail == "<>" + tail[2..];
      SplitFirstPiece(rest, "<>", tail[2..]);
    }
  }

  /** An id without `.dat` in it comes back from its file name `<id>.dat`. */
  lemma DatIdRoundTrip(id: string)
    requires !Contains(id, ".dat")
    ensures RemoveFirst(id + ".dat", ".dat") == id
  {
    var s := id + ".dat";
    AtSuffix(id, ".dat", 0, ".dat");
    assert s[|id|..|id| + 4] == ".dat";
    forall j | 0 <= j < |id| ensures !At(s, j, ".dat") {
      if j + 4 <= |id| {
        AtPrefix(id, ".dat", j, ".dat");
      } else {
        var t := s[j..j + 4];
        assert t[|id| - j] == '.';
      }
    }
    assert FirstAt(s, |id|, ".dat");
    assert s[..|id|] == id;
  }

  /** The index line of thread `id` leads back to that thread's post log
      `dat/<id>.dat` under the board URL. */
  lemma EntryLeadsToLog(base: string, id: string, rest: string)
    requires id != [] && !Contains(id, ".dat") && !Contains(id + ".dat", "<>")
    requires rest != [] && !Contains(rest, "<>")
    ensures var r := ParseSubjectLine(id + ".dat" + ("<>" + rest));
      r.Some? && Url.DatUrl(base, r.value.dat) == Url.TrimTrailingSlashes(base) + "/dat/" + id + ".dat"
  {
    ParseWellFormedLine(id + ".dat", rest, []);
    assert rest + [] == rest;
    DatIdRoundTrip(id);
    Url.DatUrlShape(base, id);
  }

  /** The line of the example below. */
  lemma ExampleLine()
    ensures ParseSubjectLine("1700000000.dat<>Test Thread (5)") == Some(Thread("1700000000", "Test Thread", "5"))
  {
    var id := "1700000000";
    var file := "1700000000.dat";
    var rest := "Test Thread (5)";
    assert file + ("<>" + (rest + [])) == "1700000000.dat<>Test Thread (5)";
    assert file == id + ".dat";
    assert CountPattern(rest, "Test Thread", ' ', "5");
    AbsentHead(file, "<>");
    AbsentHead(rest, "<>");
    AbsentHead(id, ".dat");
    SplitReplyCountComplete(rest, "Test Thread", ' ', "5");
    DatIdRoundTrip(id);
    ParseWellFormedLine(file, rest, []);
  }

  /** The index line `1700000000.dat<>Test Thread (5)` followed by a line break. */
  lemma ExampleSubject()
    ensures ParseSubject("1700000000.dat<>Test Thread (5)\n") == [Thread("1700000000", "Test Thread", "5")]
  {
    var line := "1700000000.dat<>Test Thread (5)";
    assert "1700000000.dat<>Test Thread (5)\n" == line + ("\n" + "");
    assert forall i :: 0 <= i < |line| ==> line[i] != '\n';
    ParseSubjectSingle(line);
    ParseSubjectSingle("");
    ParseSubjectAppend(line, "");
    ExampleLine();
  }
}

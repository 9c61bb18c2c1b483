/** The JavaScript string primitives the viewer is built from: substring search,
    `String.prototype.split` with a string separator, `replace` with a string
    pattern, and the character classes its regular expressions use. */
module Strings {

  datatype Option<T> = None | Some(value: T)

  /** `p` occurs in `s` starting at index `i`. */
  predicate At(s: string, i: int, p: string) {
    0 <= i && i + |p| <= |s| && s[i..i + |p|] == p
  }

  /** `p` occurs in `s` at `k` and at no earlier index. */
  predicate FirstAt(s: string, k: int, p: string) {
    At(s, k, p) && forall j :: 0 <= j < k ==> !At(s, j, p)
  }

  /** `p` occurs somewhere in `s`. */
  predicate Contains(s: string, p: string) {
    exists k :: 0 <= k <= |s| && At(s, k, p)
  }

  /** `s.indexOf(p, from)`: the first occurrence of `p` at or after `from`. */
  function IndexOf(s: string, p: string, from: nat): (r: Option<nat>)
    decreases |s| - from
    ensures r.Some? ==> from <= r.value && At(s, r.value, p)
    ensures r.Some? ==> forall k :: from <= k < r.value ==> !At(s, k, p)
    ensures r.None? ==> forall k :: from <= k ==> !At(s, k, p)
  {
    if from + |p| > |s| then None
    else if At(s, from, p) then Some(from)
    else IndexOf(s, p, from + 1)
  }

  /** Whatever is found by searching is the first occurrence from `from`. */
  lemma IndexOfIsFirst(s: string, p: string, from: nat, k: nat)
    requires from <= k && At(s, k, p)
    requires forall j :: from <= j < k ==> !At(s, j, p)
    ensures IndexOf(s, p, from) == Some(k)
  {
  }

  /** A character that is not there is not found. */
  lemma {:induction false} IndexOfAbsent(s: string, c: char, from: nat)
    requires forall j :: from <= j < |s| ==> s[j] != c
    decreases |s| - from
    ensures IndexOf(s, [c], from).None?
  {
    if from < |s| {
      assert s[from..from + 1] == [s[from]];
      IndexOfAbsent(s, c, from + 1);
    }
  }

  /** An occurrence inside a prefix is an occurrence in the whole. */
  lemma AtPrefix(a: string, t: string, i: int, p: string)
    requires i + |p| <= |a|
    ensures At(a + t, i, p) <==> At(a, i, p)
  {
    if 0 <= i {
      assert (a + t)[i..i + |p|] == a[i..i + |p|];
    }
  }

  /** An occurrence inside a suffix is an occurrence in the whole, shifted. */
  lemma AtSuffix(a: string, t: string, i: int, p: string)
    requires 0 <= i
    ensures At(a + t, |a| + i, p) <==> At(t, i, p)
  {
    if i + |p| <= |t| {
      assert (a + t)[|a| + i..|a| + i + |p|] == t[i..i + |p|];
    }
  }

  /** Joins `pieces` with `sep` between neighbours (`Array.prototype.join`). */
  function JoinWith(pieces: seq<string>, sep: string): string {
    if |pieces| == 0 then []
    else if |pieces| == 1 then pieces[0]
    else pieces[0] + sep + JoinWith(pieces[1..], sep)
  }

  /** `s.split(sep)` for a non-empty string separator: cut at the leftmost
      occurrence, then go on after it. */
  function Split(s: string, sep: string): (r: seq<string>)
    requires |sep| > 0
    decreases |s|
    ensures |r| >= 1
  {
    match IndexOf(s, sep, 0)
    case None => [s]
    case Some(k) => [s[..k]] + Split(s[k + |sep|..], sep)
  }

  /** Joining the pieces of a split with the separator gives back the text. */
  lemma {:induction false} SplitJoin(s: string, sep: string)
    requires |sep| > 0
    decreases |s|
    ensures JoinWith(Split(s, sep), sep) == s
  {
    match IndexOf(s, sep, 0)
    case None =>
    case Some(k) =>
      var rest := Split(s[k + |sep|..], sep);
      SplitJoin(s[k + |sep|..], sep);
      assert ([s[..k]] + rest)[1..] == rest;
      assert s == s[..k] + sep + s[k + |sep|..];
  }

  /** No piece of a split contains the separator. */
  lemma {:induction false} SplitPiecesFree(s: string, sep: string)
    requires |sep| > 0
    decreases |s|
    ensures forall i :: 0 <= i < |Split(s, sep)| ==> !Contains(Split(s, sep)[i], sep)
  {
    match IndexOf(s, sep, 0)
    case None =>
    case Some(k) =>
      var head, tail := s[..k], s[k + |sep|..];
      forall j | 0 <= j <= |head| ensures !At(head, j, sep) {
        if j + |sep| <= |head| {
          AtPrefix(head, s[k..], j, sep);
          assert head + s[k..] == s;
        }
      }
      SplitPiecesFree(tail, sep);
  }

  /** Text without the separator is not cut. */
  lemma SplitSingle(s: string, sep: string)
    requires |sep| > 0 && !Contains(s, sep)
    ensures Split(s, sep) == [s]
  {
  }

  /** The first occurrence in `a` is still the first once `a` is extended. */
  lemma IndexOfExtended(a: string, t: string, p: string, k: nat)
    requires IndexOf(a, p, 0) == Some(k)
    ensures IndexOf(a + t, p, 0) == Some(k)
  {
    forall j | 0 <= j <= k ensures At(a + t, j, p) <==> At(a, j, p) {
      AtPrefix(a, t, j, p);
    }
    IndexOfIsFirst(a + t, p, 0, k);
  }

  /** A character absent from `a` is first found right after `a`. */
  lemma IndexOfAfter(a: string, c: char, b: string)
    requires IndexOf(a, [c], 0).None?
    ensures IndexOf(a + [c] + b, [c], 0) == Some(|a|)
  {
    var s := a + [c] + b;
    assert s == a + ([c] + b);
    forall j | 0 <= j < |a| ensures !At(s, j, [c]) {
      AtPrefix(a, [c] + b, j, [c]);
    }
    AtSuffix(a, [c] + b, 0, [c]);
    IndexOfIsFirst(s, [c], 0, |a|);
  }

  /** One step of a split, at the first separator. */
  lemma SplitAt(s: string, sep: string, k: nat)
    requires |sep| > 0 && IndexOf(s, sep, 0) == Some(k)
    ensures Split(s, sep) == [s[..k]] + Split(s[k + |sep|..], sep)
  {
  }

  /** Splitting on a one-character separator distributes over a separator:
      the pieces of `a + [c] + b` are the pieces of `a` followed by those of `b`. */
  lemma {:induction false} SplitAppend(a: string, c: char, b: string)
    ensures Split(a + ([c] + b), [c]) == Split(a, [c]) + Split(b, [c])
    decreases |a|
  {
    var found := IndexOf(a, [c], 0);
    if found.None? {
      SplitAppendNoSep(a, c, b);
    } else {
      var k := found.value;
      SplitAppend(a[k + 1..], c, b);
      SplitOfExtended(a, [c] + b, [c], k);
      SplitAt(a, [c], k);
      ConsAssoc(a[..k], Split(a[k + 1..], [c]), Split(b, [c]));
    }
  }

  lemma ConsAssoc<T>(h: T, l: seq<T>, r: seq<T>)
    ensures [h] + (l + r) == ([h] + l) + r
  {
  }

  /** Text after the first separator does not change where the first cut is. */
  lemma SplitOfExtended(a: string, t: string, sep: string, k: nat)
    requires |sep| > 0 && IndexOf(a, sep, 0) == Some(k)
    ensures Split(a + t, sep) == [a[..k]] + Split(a[k + |sep|..] + t, sep)
  {
    IndexOfExtended(a, t, sep, k);
    SplitAt(a + t, sep, k);
    assert (a + t)[..k] == a[..k];
    assert (a + t)[k + |sep|..] == a[k + |sep|..] + t;
  }

  lemma SplitAppendNoSep(a: string, c: char, b: string)
    requires IndexOf(a, [c], 0).None?
    ensures Split(a + ([c] + b), [c]) == Split(a, [c]) + Split(b, [c])
  {
    var s := a + ([c] + b);
    IndexOfAfter(a, c, b);
    assert a + [c] + b == s;
    SplitAt(s, [c], |a|);
    assert s[..|a|] == a && s[|a| + 1..] == b;
    SplitSingle(a, [c]);
  }

  /** `xs.filter(Boolean)` on strings: the empty strings go, the rest keep their order. */
  function DropEmpty(xs: seq<string>): (r: seq<string>)
    ensures forall i :: 0 <= i < |r| ==> r[i] != []
    ensures |r| <= |xs|
    ensures forall x :: x in r <==> x in xs && x != []
  {
    if |xs| == 0 then []
    else if xs[0] == [] then DropEmpty(xs[1..])
    else [xs[0]] + DropEmpty(xs[1..])
  }

  lemma {:induction false} DropEmptyAppend(xs: seq<string>, ys: seq<string>)
    ensures DropEmpty(xs + ys) == DropEmpty(xs) + DropEmpty(ys)
  {
    if |xs| == 0 {
      assert xs + ys == ys;
    } else {
      assert (xs + ys)[1..] == xs[1..] + ys;
      DropEmptyAppend(xs[1..], ys);
    }
  }

  /** One element is kept exactly when it is not empty; with DropEmptyAppend this
      fixes the result, order included. */
  lemma DropEmptySingle(x: string)
    ensures DropEmpty([x]) == if x == [] then [] else [x]
  {
    assert [x][1..] == [];
  }

  /** `text.split("\n").filter(Boolean)`: the non-empty lines, in order. */
  function NonEmptyLines(text: string): seq<string> {
    DropEmpty(Split(text, "\n"))
  }

  /** The lines of two texts joined by a line break are the lines of the first
      followed by those of the second. */
  lemma NonEmptyLinesAppend(a: string, b: string)
    ensures NonEmptyLines(a + ("\n" + b)) == NonEmptyLines(a) + NonEmptyLines(b)
  {
    SplitAppend(a, '\n', b);
    DropEmptyAppend(Split(a, "\n"), Split(b, "\n"));
  }

  /** A text without a line break is one line, or none when it is empty. */
  lemma NonEmptyLinesSingle(line: string)
    requires forall i :: 0 <= i < |line| ==> line[i] != '\n'
    ensures NonEmptyLines(line) == if line == [] then [] else [line]
  {
    forall k | 0 <= k <= |line| ensures !At(line, k, "\n") {
      if k < |line| {
        assert line[k..k + 1] == [line[k]];
      }
    }
    SplitSingle(line, "\n");
  }

  /** `sep` starts with a character that does not recur in it, so two occurrences
      of it never overlap. */
  predicate HeadUnique(sep: string) {
    |sep| > 0 && forall i :: 0 < i < |sep| ==> sep[i] != sep[0]
  }

  /** Text free of such a separator, then the separator, is the first piece. */
  lemma SplitFirstPiece(a: string, sep: string, b: string)
    requires HeadUnique(sep) && !Contains(a, sep)
    ensures Split(a + (sep + b), sep) == [a] + Split(b, sep)
  {
    var s := a + (sep + b);
    AtSuffix(a, sep + b, 0, sep);
    assert (sep + b)[..|sep|] == sep;
    forall j | 0 <= j < |a| ensures !At(s, j, sep) {
      if j + |sep| <= |a| {
        AtPrefix(a, sep + b, j, sep);
      } else {
        var t := s[j..j + |sep|];
        assert t[|a| - j] == sep[0];
        assert sep[|a| - j] != sep[0];
      }
    }
    IndexOfIsFirst(s, sep, 0, |a|);
    SplitAt(s, sep, |a|);
    assert s[..|a|] == a;
    assert s[|a| + |sep|..] == b;
  }

  /** A pattern occurs in a slice exactly where it occurs, inside the slice, in the whole. */
  lemma AtSlice(s: string, a: nat, b: nat, j: nat, p: string)
    requires a <= b <= |s| && a + j + |p| <= b
    ensures At(s[a..b], j, p) <==> At(s, a + j, p)
  {
    var t := s[a..b];
    if j + |p| <= |t| {
      var u, v := t[j..j + |p|], s[a + j..a + j + |p|];
      assert forall i :: 0 <= i < |p| ==> u[i] == v[i];
      assert u == v;
    }
  }

  /** A pattern does not start where its first character is not. */
  lemma NotAtHead(s: string, p: string)
    requires |p| > 0 && (s == [] || s[0] != p[0])
    ensures !At(s, 0, p)
  {
    if |s| >= |p| {
      assert s[..|p|][0] == s[0];
    }
  }

  /** A text without the first character of a pattern does not contain it. */
  lemma AbsentHead(s: string, p: string)
    requires |p| > 0 && forall i :: 0 <= i < |s| ==> s[i] != p[0]
    ensures !Contains(s, p)
  {
    forall k | 0 <= k <= |s| ensures !At(s, k, p) {
      if k + |p| <= |s| {
        assert s[k..k + |p|][0] == s[k];
      }
    }
  }

  /** `s.replace(p, "")` for a string pattern: only the leftmost occurrence goes. */
  function RemoveFirst(s: string, p: string): (r: string)
    ensures (forall k :: !At(s, k, p)) ==> r == s
    ensures forall k :: FirstAt(s, k, p) ==> r == s[..k] + s[k + |p|..]
  {
    match IndexOf(s, p, 0)
    case None => s
    case Some(k) => s[..k] + s[k + |p|..]
  }

  /** `\d`: an ASCII decimal digit. */
  predicate IsDigit(c: char) {
    '0' <= c <= '9'
  }

  predicate AllDigits(s: string) {
    forall i :: 0 <= i < |s| ==> IsDigit(s[i])
  }

  /** JavaScript's line terminators, the characters a regular expression `.` does not match. */
  predicate IsLineTerminator(c: char) {
    c == '\n' || c == '\r' || c == '\U{2028}' || c == '\U{2029}'
  }

  predicate NoLineTerminator(s: string) {
    forall i :: 0 <= i < |s| ==> !IsLineTerminator(s[i])
  }

  /** `\s`: JavaScript white space (the space separators of Unicode, tab, vertical tab,
      form feed, no-break space, byte order mark) and the line terminators. */
  predicate IsSpace(c: char) {
    || c == '\t' || c == '\U{000B}' || c == '\U{000C}' || c == ' '
    || c == '\U{00A0}' || c == '\U{1680}' || ('\U{2000}' <= c <= '\U{200A}')
    || c == '\U{202F}' || c == '\U{205F}' || c == '\U{3000}' || c == '\U{FEFF}'
    || IsLineTerminator(c)
  }

  /** The longest prefix of `s` made of digits (what a greedy `\d+` takes). */
  function DigitRun(s: string): (r: string)
    ensures r <= s && AllDigits(r)
    ensures |r| == |s| || !IsDigit(s[|r|])
  {
    if |s| > 0 && IsDigit(s[0]) then [s[0]] + DigitRun(s[1..]) else []
  }

  /** The longest suffix of `s` made of digits. */
  function DigitSuffix(s: string): (r: string)
    ensures |r| <= |s| && r == s[|s| - |r|..] && AllDigits(r)
    ensures |r| == |s| || !IsDigit(s[|s| - |r| - 1])
  {
    if |s| > 0 && IsDigit(s[|s| - 1]) then DigitSuffix(s[..|s| - 1]) + [s[|s| - 1]] else []
  }

  /** The digit run of digits followed by a non-digit is exactly those digits. */
  lemma {:induction false} DigitRunOf(d: string, t: string)
    requires AllDigits(d) && (t == [] || !IsDigit(t[0]))
    ensures DigitRun(d + t) == d
  {
    if d != [] {
      assert (d + t)[1..] == d[1..] + t;
      DigitRunOf(d[1..], t);
    }
  }

  /** The digit suffix of `x` followed by digits, where `x` ends in a non-digit, is those digits. */
  lemma {:induction false} DigitSuffixOf(x: string, d: string)
    requires AllDigits(d) && (x == [] || !IsDigit(x[|x| - 1]))
    ensures DigitSuffix(x + d) == d
  {
    if d != [] {
      var s := x + d;
      assert s[..|s| - 1] == x + d[..|d| - 1];
      DigitSuffixOf(x, d[..|d| - 1]);
    }
  }
}

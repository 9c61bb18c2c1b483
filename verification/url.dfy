/** The URLs the viewer requests: `j` joins a board URL and a relative path
    (server.js:17-19), giving the thread index and the raw post log; the
    read.cgi fallback URL is built from the board's short name (server.js:123). */
module Url {
  import opened Strings

  /** `n` slashes. */
  function Slashes(n: nat): (r: string)
    ensures |r| == n && forall i :: 0 <= i < n ==> r[i] == '/'
  {
    seq(n, _ => '/')
  }

  /** `s.replace(/\/+$/, "")`: the run of slashes at the end goes. */
  function TrimTrailingSlashes(s: string): (r: string)
    decreases |s|
    ensures r <= s
    ensures forall i :: |r| <= i < |s| ==> s[i] == '/'
    ensures r == [] || r[|r| - 1] != '/'
  {
    if |s| > 0 && s[|s| - 1] == '/' then TrimTrailingSlashes(s[..|s| - 1]) else s
  }

  /** `s.replace(/^\/+/, "")`: the run of slashes at the start goes. */
  function TrimLeadingSlashes(s: string): (r: string)
    decreases |s|
    ensures |r| <= |s| && r == s[|s| - |r|..]
    ensures forall i :: 0 <= i < |s| - |r| ==> s[i] == '/'
    ensures r == [] || r[0] != '/'
  {
    if |s| > 0 && s[0] == '/' then TrimLeadingSlashes(s[1..]) else s
  }

  /** Trailing slashes are what is left after a prefix that does not end in one. */
  lemma {:induction false} TrimTrailingOf(b: string, m: nat)
    requires b == [] || b[|b| - 1] != '/'
    ensures TrimTrailingSlashes(b + Slashes(m)) == b
  {
    var s := b + Slashes(m);
    if m == 0 {
      assert s == b;
    } else {
      assert s[..|s| - 1] == b + Slashes(m - 1);
      TrimTrailingOf(b, m - 1);
    }
  }

  /** Leading slashes are what comes before a rest that does not start with one. */
  lemma {:induction false} TrimLeadingOf(p: string, n: nat)
    requires p == [] || p[0] != '/'
    ensures TrimLeadingSlashes(Slashes(n) + p) == p
  {
    var s := Slashes(n) + p;
    if n == 0 {
      assert s == p;
    } else {
      assert s[1..] == Slashes(n - 1) + p;
      TrimLeadingOf(p, n - 1);
    }
  }

  lemma SlashesAppend(m: nat, n: nat)
    ensures Slashes(m) + Slashes(n) == Slashes(m + n)
  {
  }

  /** `j(base, path)`: the base without its trailing slashes, one slash, and the
      path without its leading slashes. */
  function Join(base: string, path: string): string {
    TrimTrailingSlashes(base) + "/" + TrimLeadingSlashes(path)
  }

  /** However many slashes end the base and start the path, the two are joined
      by exactly one. */
  lemma JoinCanonical(b: string, m: nat, p: string, n: nat)
    requires b == [] || b[|b| - 1] != '/'
    requires p == [] || p[0] != '/'
    ensures Join(b + Slashes(m), Slashes(n) + p) == b + "/" + p
  {
    TrimTrailingOf(b, m);
    TrimLeadingOf(p, n);
  }

  /** Every text is a core that does not end in a slash followed by slashes. */
  lemma SplitTrailingSlashes(s: string) returns (m: nat)
    ensures s == TrimTrailingSlashes(s) + Slashes(m)
  {
    var r := TrimTrailingSlashes(s);
    m := |s| - |r|;
    assert s == r + s[|r|..];
    assert s[|r|..] == Slashes(m);
  }

  /** More slashes at the end of a text do not change what trimming them leaves. */
  lemma TrimTrailingExtra(base: string, m: nat)
    ensures TrimTrailingSlashes(base + Slashes(m)) == TrimTrailingSlashes(base)
  {
    var b := TrimTrailingSlashes(base);
    var m0 := SplitTrailingSlashes(base);
    SlashesAppend(m0, m);
    calc {
      base + Slashes(m);
      (b + Slashes(m0)) + Slashes(m);
      b + (Slashes(m0) + Slashes(m));
      b + Slashes(m0 + m);
    }
    TrimTrailingOf(b, m0 + m);
  }

  /** More slashes at the start of a text do not change what trimming them leaves. */
  lemma {:induction false} TrimLeadingExtra(path: string, n: nat)
    ensures TrimLeadingSlashes(Slashes(n) + path) == TrimLeadingSlashes(path)
  {
    var s := Slashes(n) + path;
    if n == 0 {
      assert s == path;
    } else {
      assert s[1..] == Slashes(n - 1) + path;
      TrimLeadingExtra(path, n - 1);
    }
  }

  /** More slashes at the end of the base or at the start of the path change nothing. */
  lemma JoinIgnoresExtraSlashes(base: string, path: string, m: nat, n: nat)
    ensures Join(base + Slashes(m), Slashes(n) + path) == Join(base, path)
  {
    TrimTrailingExtra(base, m);
    TrimLeadingExtra(path, n);
  }

  /** The thread index of a board (server.js:97). */
  function SubjectUrl(base: string): string {
    Join(base, "subject.txt")
  }

  /** The raw post log of thread `dat` (server.js:117). */
  function DatUrl(base: string, dat: string): string {
    Join(base, "dat/" + dat + ".dat")
  }

  /** Taking the file name off the index URL leaves the board URL in a normal form
      (its trailing slashes replaced by one), and joining any path to that normal
      form gives what joining it to the board URL gives. */
  lemma SubjectUrlDirectory(base: string, path: string)
    ensures var u := SubjectUrl(base);
      && |u| >= 11
      && u[..|u| - 11] == TrimTrailingSlashes(base) + "/"
      && u[|u| - 11..] == "subject.txt"
      && Join(u[..|u| - 11], path) == Join(base, path)
  {
    var b := TrimTrailingSlashes(base);
    TrimLeadingOf("subject.txt", 0);
    assert Slashes(0) + "subject.txt" == "subject.txt";
    var u := SubjectUrl(base);
    assert u == b + "/" + "subject.txt";
    assert u[..|u| - 11] == b + "/";
    assert b + "/" == b + Slashes(1);
    TrimTrailingOf(b, 1);
  }

  /** The post log of a thread is the file `dat/<id>.dat` under the board URL. */
  lemma DatUrlShape(base: string, dat: string)
    ensures DatUrl(base, dat) == TrimTrailingSlashes(base) + "/dat/" + dat + ".dat"
  {
    var p := "dat/" + dat + ".dat";
    TrimLeadingOf(p, 0);
    assert Slashes(0) + p == p;
  }

  /** `base.split("/").filter(Boolean).pop()`: the last non-empty `/`-separated
      segment of the board URL, `None` (JavaScript's `undefined`) when there is none. */
  function BoardShortName(base: string): Option<string> {
    var segments := DropEmpty(Split(base, "/"));
    if |segments| == 0 then None else Some(segments[|segments| - 1])
  }

  /** The read.cgi URL of the fallback request (server.js:123); a missing short
      name is interpolated as the text "undefined". */
  function ReadCgiUrl(base: string, dat: string): string {
    var short := match BoardShortName(base) case Some(name) => name case None => "undefined";
    "https://itest.5ch.net/read.cgi/" + short + "/" + dat + "/"
  }

  predicate NoSlash(s: string) {
    forall i :: 0 <= i < |s| ==> s[i] != '/'
  }

  lemma SplitNoSlash(s: string)
    requires NoSlash(s)
    ensures Split(s, "/") == [s]
  {
    forall k | 0 <= k <= |s| ensures !At(s, k, "/") {
      if k < |s| {
        assert s[k..k + 1] == [s[k]];
      }
    }
    SplitSingle(s, "/");
  }

  /** Slashes alone split into empty segments only. */
  lemma {:induction false} SplitSlashesEmpty(m: nat)
    ensures DropEmpty(Split(Slashes(m), "/")) == []
  {
    if m == 0 {
      SplitNoSlash([]);
    } else {
      assert Slashes(m) == [] + ("/" + Slashes(m - 1));
      SplitAppend([], '/', Slashes(m - 1));
      SplitNoSlash([]);
      DropEmptyAppend([[]], Split(Slashes(m - 1), "/"));
      SplitSlashesEmpty(m - 1);
    }
  }

  /** A segment followed by slashes gives that segment and empty ones. */
  lemma SegmentThenSlashes(seg: string, m: nat)
    requires seg != [] && NoSlash(seg)
    ensures DropEmpty(Split(seg + Slashes(m), "/")) == [seg]
  {
    SplitNoSlash(seg);
    if m == 0 {
      assert seg + Slashes(0) == seg;
    } else {
      assert seg + Slashes(m) == seg + ("/" + Slashes(m - 1));
      SplitAppend(seg, '/', Slashes(m - 1));
      DropEmptyAppend([seg], Split(Slashes(m - 1), "/"));
      SplitSlashesEmpty(m - 1);
    }
  }

  /** The short name is the segment before the trailing slashes, whatever precedes it. */
  lemma ShortNameOf(x: string, seg: string, m: nat)
    requires seg != [] && NoSlash(seg)
    requires x == [] || x[|x| - 1] == '/'
    ensures BoardShortName(x + seg + Slashes(m)) == Some(seg)
  {
    ShortNameOfUrl(x, seg, m, x + seg + Slashes(m));
  }

  /** `ShortNameOf`, for a URL `u` known to have that form. */
  lemma ShortNameOfUrl(x: string, seg: string, m: nat, u: string)
    requires seg != [] && NoSlash(seg)
    requires x == [] || x[|x| - 1] == '/'
    requires u == x + seg + Slashes(m)
    ensures BoardShortName(u) == Some(seg)
  {
    SegmentThenSlashes(seg, m);
    if x == [] {
      assert x + seg + Slashes(m) == seg + Slashes(m);
    } else {
      var x' := x[..|x| - 1];
      assert x + seg + Slashes(m) == x' + ("/" + (seg + Slashes(m)));
      SplitAppend(x', '/', seg + Slashes(m));
      DropEmptyAppend(Split(x', "/"), Split(seg + Slashes(m), "/"));
    }
  }

  /** A URL made of slashes only has no short name. */
  lemma ShortNameOfSlashes(m: nat)
    ensures BoardShortName(Slashes(m)) == None
  {
    ShortNameOfSlashesUrl(m, Slashes(m));
  }

  /** `ShortNameOfSlashes`, for a URL `u` known to be slashes only. */
  lemma ShortNameOfSlashesUrl(m: nat, u: string)
    requires u == Slashes(m)
    ensures BoardShortName(u) == None
  {
    SplitSlashesEmpty(m);
  }

  /** The longest suffix of `s` without a slash. */
  function LastSegment(s: string): (r: string)
    ensures |r| <= |s| && r == s[|s| - |r|..] && NoSlash(r)
    ensures |r| == |s| || s[|s| - |r| - 1] == '/'
  {
    if |s| > 0 && s[|s| - 1] != '/' then LastSegment(s[..|s| - 1]) + [s[|s| - 1]] else []
  }

  /** The short name, stated without splitting: drop the trailing slashes, then
      take what follows the last remaining slash. */
  lemma ShortNameIsLastSegment(base: string)
    ensures var t := TrimTrailingSlashes(base);
      BoardShortName(base) == if t == [] then None else Some(LastSegment(t))
  {
    var t := TrimTrailingSlashes(base);
    if t == [] {
      assert BoardShortName(base) == None by {
        var m := SplitTrailingSlashes(base);
        ShortNameOfSlashesUrl(m, base);
      }
    } else {
      assert BoardShortName(base) == Some(LastSegment(t)) by {
        var m := SplitTrailingSlashes(base);
        var seg := LastSegment(t);
        var x := t[..|t| - |seg|];
        assert seg != [] by {
          assert t[|t| - 1] != '/';
        }
        assert base == x + seg + Slashes(m) by {
          assert t == x + seg;
        }
        ShortNameOfUrl(x, seg, m, base);
      }
    }
  }

  /** The fallback URL names the board by its short name and then the thread. */
  lemma ReadCgiUrlShape(x: string, seg: string, m: nat, dat: string)
    requires seg != [] && NoSlash(seg)
    requires x == [] || x[|x| - 1] == '/'
    ensures ReadCgiUrl(x + seg + Slashes(m), dat) == "https://itest.5ch.net/read.cgi/" + seg + "/" + dat + "/"
  {
    ShortNameOf(x, seg, m);
  }
}

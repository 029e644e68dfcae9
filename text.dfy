/** The parts of Go's `strings`, `bufio` and `path/filepath` packages that the
    analyzer's text handling relies on, over `string` (a sequence of Unicode
    characters). */
module Text {
  import opened Base

  // ---------------------------------------------------------------------------
  // Substring search: strings.Index, strings.Contains, strings.Split(s, sep)[1]
  // ---------------------------------------------------------------------------

  /** `pat` occurs in `s` starting at position `j`. */
  predicate OccursAt(s: string, pat: string, j: nat) {
    j + |pat| <= |s| && s[j..j + |pat|] == pat
  }

  /** Position of the first occurrence of `pat` in `s`, if any. */
  function IndexOf(s: string, pat: string): (r: Option<nat>)
    ensures r.Some? ==> OccursAt(s, pat, r.value)
    ensures r.Some? ==> forall j: nat :: j < r.value ==> !OccursAt(s, pat, j)
    ensures r.None? ==> forall j: nat :: !OccursAt(s, pat, j)
    decreases |s|
  {
    if |s| < |pat| then None
    else if s[..|pat|] == pat then Some(0)
    else
      match IndexOf(s[1..], pat)
      case None =>
        assert forall j: nat :: 1 <= j ==> OccursAt(s, pat, j) == OccursAt(s[1..], pat, j - 1);
        None
      case Some(k) =>
        assert forall j: nat :: 1 <= j ==> OccursAt(s, pat, j) == OccursAt(s[1..], pat, j - 1);
        Some(k + 1)
  }

  predicate Contains(s: string, pat: string) {
    IndexOf(s, pat).Some?
  }

  /** `pat` occurs in the middle of `x + pat + y`, so the search succeeds. */
  lemma ContainsMiddle(x: string, pat: string, y: string)
    ensures Contains(x + pat + y, pat)
  {
    var s := x + pat + y;
    assert s[|x|..|x| + |pat|] == pat;
    assert OccursAt(s, pat, |x|);
  }

  /** When the first character of `pat` does not occur in `x`, the first
      occurrence of `pat` in `x + pat + y` is the one right after `x`. */
  lemma IndexAfterPrefix(x: string, pat: string, y: string)
    requires pat != [] && pat[0] !in x
    ensures IndexOf(x + pat + y, pat) == Some(|x|)
  {
    var s := x + pat + y;
    assert s[|x|..|x| + |pat|] == pat;
    assert OccursAt(s, pat, |x|);
    forall j: nat | j < |x|
      ensures !OccursAt(s, pat, j)
    {
      assert s[j] == x[j];
    }
  }

  /** The text of `s` before the first occurrence of `sep` (all of it if none). */
  function UpTo(s: string, sep: string): (r: string)
    ensures r <= s
    ensures sep != [] ==> !Contains(r, sep)
    ensures forall j: nat :: j < |r| ==> !OccursAt(s, sep, j)
    ensures r == s || OccursAt(s, sep, |r|)
  {
    match IndexOf(s, sep)
    case None => s
    case Some(i) =>
      assert forall j: nat :: OccursAt(s[..i], sep, j) ==> OccursAt(s, sep, j) && j + |sep| <= i by {
        forall j: nat | OccursAt(s[..i], sep, j) ensures OccursAt(s, sep, j) && j + |sep| <= i {
          assert s[..i][j..j + |sep|] == s[j..j + |sep|];
        }
      }
      s[..i]
  }

  /** The contract of `UpTo` pins it down: a prefix of `s` that `sep` does not
      start inside, and that ends at an occurrence of `sep` or at the end of
      `s`, is `UpTo(s, sep)`. */
  lemma UpToUnique(s: string, sep: string, r: string)
    requires r <= s
    requires forall j: nat :: j < |r| ==> !OccursAt(s, sep, j)
    requires r == s || OccursAt(s, sep, |r|)
    ensures UpTo(s, sep) == r
  {
    var u := UpTo(s, sep);
    assert u == s || OccursAt(s, sep, |u|);
    assert |u| == |r|;
    assert u == s[..|u|] && r == s[..|r|];
  }

  /** `strings.Split(s, sep)[1]`: the piece between the first occurrence of
      `sep` and the next one (or the end). Go panics when `sep` does not occur. */
  function SplitSecond(s: string, sep: string): string
    requires Contains(s, sep)
  {
    UpTo(s[IndexOf(s, sep).value + |sep|..], sep)
  }

  // ---------------------------------------------------------------------------
  // strings.Fields and strings.Join
  // ---------------------------------------------------------------------------

  /** Go's `unicode.IsSpace`, the separator test of `strings.Fields`. */
  predicate IsSpace(c: char) {
    c == ' ' || c == '\t' || c == '\n' || c == '\U{000B}' || c == '\U{000C}' || c == '\r'
    || c == '\U{0085}' || c == '\U{00A0}' || c == '\U{1680}'
    || ('\U{2000}' <= c <= '\U{200A}')
    || c == '\U{2028}' || c == '\U{2029}' || c == '\U{202F}' || c == '\U{205F}' || c == '\U{3000}'
  }

  /** A non-empty run of non-space characters: what `strings.Fields` yields. */
  predicate IsToken(w: string) {
    w != [] && forall i :: 0 <= i < |w| ==> !IsSpace(w[i])
  }

  /** Length of the leading run of non-space characters. */
  function WordLen(s: string): (n: nat)
    ensures n <= |s|
    ensures forall i :: 0 <= i < n ==> !IsSpace(s[i])
    ensures n < |s| ==> IsSpace(s[n])
  {
    if s == [] || IsSpace(s[0]) then 0 else 1 + WordLen(s[1..])
  }

  /** `strings.Fields`: the maximal runs of non-space characters, in order. */
  function Fields(s: string): (ws: seq<string>)
    ensures forall k :: 0 <= k < |ws| ==> IsToken(ws[k])
    decreases |s|
  {
    if s == [] then []
    else if IsSpace(s[0]) then Fields(s[1..])
    else
      var n := WordLen(s);
      [s[..n]] + Fields(s[n..])
  }

  /** `strings.Join`. */
  function Join(ws: seq<string>, sep: string): string
  {
    if ws == [] then []
    else if |ws| == 1 then ws[0]
    else ws[0] + sep + Join(ws[1..], sep)
  }

  lemma {:induction false} WordLenOfToken(w: string, r: string)
    requires IsToken(w)
    requires r == [] || IsSpace(r[0])
    ensures WordLen(w + r) == |w|
    decreases |w|
  {
    assert (w + r)[0] == w[0];
    if |w| > 1 {
      assert (w + r)[1..] == w[1..] + r;
      WordLenOfToken(w[1..], r);
    } else {
      assert (w + r)[1..] == r;
    }
  }

  /** A token followed by a space (or nothing) contributes exactly itself. */
  lemma FieldsTokenThen(w: string, r: string)
    requires IsToken(w)
    requires r == [] || IsSpace(r[0])
    ensures Fields(w + r) == [w] + Fields(r)
  {
    WordLenOfToken(w, r);
    assert (w + r)[0] == w[0];
    assert (w + r)[..|w|] == w && (w + r)[|w|..] == r;
  }

  /** Leading whitespace is skipped. */
  lemma {:induction false} FieldsSkipSpaces(sp: string, r: string)
    requires forall i :: 0 <= i < |sp| ==> IsSpace(sp[i])
    ensures Fields(sp + r) == Fields(r)
    decreases |sp|
  {
    if sp != [] {
      assert (sp + r)[0] == sp[0];
      assert (sp + r)[1..] == sp[1..] + r;
      FieldsSkipSpaces(sp[1..], r);
    } else {
      assert sp + r == r;
    }
  }

  /** Splitting tokens joined by single spaces gives the tokens back. */
  lemma {:induction false} FieldsOfJoin(ws: seq<string>)
    requires forall k :: 0 <= k < |ws| ==> IsToken(ws[k])
    ensures Fields(Join(ws, " ")) == ws
  {
    if ws == [] {
    } else if |ws| == 1 {
      FieldsTokenThen(ws[0], []);
      assert ws[0] + [] == ws[0];
    } else {
      var rest := Join(ws[1..], " ");
      assert Join(ws, " ") == ws[0] + (" " + rest);
      FieldsTokenThen(ws[0], " " + rest);
      FieldsSkipSpaces(" ", rest);
      FieldsOfJoin(ws[1..]);
    }
  }

  /** Tokens joined by single spaces: no character is a space other than ' '. */
  lemma {:induction false} JoinChars(ws: seq<string>, i: nat)
    requires forall k :: 0 <= k < |ws| ==> IsToken(ws[k])
    requires i < |Join(ws, " ")|
    ensures IsSpace(Join(ws, " ")[i]) ==> Join(ws, " ")[i] == ' '
  {
    if |ws| > 1 {
      var rest := Join(ws[1..], " ");
      assert Join(ws, " ") == ws[0] + " " + rest;
      if i > |ws[0]| {
        JoinChars(ws[1..], i - |ws[0]| - 1);
      }
    }
  }

  /** Tokens joined by single spaces end in a non-space character. */
  lemma {:induction false} JoinLast(ws: seq<string>)
    requires ws != [] && forall k :: 0 <= k < |ws| ==> IsToken(ws[k])
    ensures Join(ws, " ") != [] && !IsSpace(Join(ws, " ")[|Join(ws, " ")| - 1])
  {
    if |ws| > 1 {
      JoinLast(ws[1..]);
      assert Join(ws, " ") == ws[0] + " " + Join(ws[1..], " ");
    }
  }

  // ---------------------------------------------------------------------------
  // bufio.Scanner with ScanLines
  // ---------------------------------------------------------------------------

  /** Length of the text before the first newline. */
  function LineLen(s: string): (n: nat)
    ensures n <= |s|
    ensures forall i :: 0 <= i < n ==> s[i] != '\n'
    ensures n < |s| ==> s[n] == '\n'
  {
    if s == [] || s[0] == '\n' then 0 else 1 + LineLen(s[1..])
  }

  /** A trailing carriage return is dropped from each line. */
  function DropCR(l: string): (r: string)
    ensures r <= l
  {
    if l != [] && l[|l| - 1] == '\r' then l[..|l| - 1] else l
  }

  /** The lines a `bufio.Scanner` with the default `ScanLines` splitter yields:
      pieces separated by '\n', a final unterminated piece only when it is
      non-empty, each without its trailing '\r'. */
  function Lines(s: string): seq<string>
    decreases |s|
  {
    if s == [] then []
    else
      var n := LineLen(s);
      [DropCR(s[..n])] + (if n == |s| then [] else Lines(s[n + 1..]))
  }

  lemma {:induction false} LineLenOf(x: string, rest: string)
    requires '\n' !in x
    ensures LineLen(x + "\n" + rest) == |x|
    decreases |x|
  {
    if x != [] {
      assert (x + "\n" + rest)[1..] == x[1..] + "\n" + rest;
      LineLenOf(x[1..], rest);
    }
  }

  /** Text without a newline is one line, or none when it is empty. */
  lemma LinesLast(x: string)
    requires '\n' !in x
    ensures Lines(x) == (if x == [] then [] else [DropCR(x)])
  {
    if x != [] {
      assert x[..LineLen(x)] == x;
    }
  }

  /** One newline-terminated line in front of more text. */
  lemma LinesCons(x: string, rest: string)
    requires '\n' !in x
    ensures Lines(x + "\n" + rest) == [DropCR(x)] + Lines(rest)
  {
    var s := x + "\n" + rest;
    LineLenOf(x, rest);
    assert s[..|x|] == x;
    assert s[|x| + 1..] == rest;
  }

  // ---------------------------------------------------------------------------
  // filepath.Ext (on a system whose path separator is '/')
  // ---------------------------------------------------------------------------

  /** The suffix of `path` starting at the last '.' of its final element, or
      "" when that element has no '.'. */
  function Ext(path: string): string
    decreases |path|
  {
    if path == [] then []
    else
      var c := path[|path| - 1];
      if c == '/' then []
      else if c == '.' then "."
      else
        var e := Ext(path[..|path| - 1]);
        if e == [] then [] else e + [c]
  }

  /** The extension is empty, or a suffix of the path that starts with '.' and
      contains no further '.' and no '/'. */
  lemma {:induction false} ExtIsSuffix(path: string)
    ensures Ext(path) == [] || (Ext(path)[0] == '.' && |Ext(path)| <= |path| && Ext(path) == path[|path| - |Ext(path)|..])
    ensures forall i :: 1 <= i < |Ext(path)| ==> Ext(path)[i] != '.' && Ext(path)[i] != '/'
    decreases |path|
  {
    if path != [] {
      var c := path[|path| - 1];
      var init := path[..|path| - 1];
      ExtIsSuffix(init);
      var e := Ext(init);
      if c != '/' && c != '.' && e != [] {
        assert Ext(path) == e + [c];
        assert init[|init| - |e|..] + [c] == path[|path| - |e| - 1..];
      }
    }
  }

  /** A directory prefix does not change the extension of a file name. */
  lemma ExtAfterSlash(dir: string, name: string)
    requires '/' !in name
    ensures Ext(dir + "/" + name) == Ext(name)
  {
    ExtBehindSlash(dir + "/", name);
  }

  lemma {:induction false} ExtBehindSlash(p: string, name: string)
    requires p != [] && p[|p| - 1] == '/'
    requires forall i :: 0 <= i < |name| ==> name[i] != '/'
    ensures Ext(p + name) == Ext(name)
    decreases |name|
  {
    if name == [] {
      assert p + name == p;
    } else {
      var n := |name| - 1;
      assert (p + name)[..|p| + n] == p + name[..n];
      ExtBehindSlash(p, name[..n]);
    }
  }

  /** A final '.' followed by characters other than '.' and '/' is the
      extension, whatever precedes it. */
  lemma {:induction false} ExtOfSuffix(p: string, e: string)
    requires e != [] && e[0] == '.'
    requires forall i :: 1 <= i < |e| ==> e[i] != '.' && e[i] != '/'
    ensures Ext(p + e) == e
    decreases |e|
  {
    var path := p + e;
    assert path[|path| - 1] == e[|e| - 1];
    if |e| > 1 {
      var e' := e[..|e| - 1];
      assert path[..|path| - 1] == p + e';
      ExtOfSuffix(p, e');
    }
  }
}

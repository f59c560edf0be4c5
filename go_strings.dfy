/**
 * The parts of Go's `strings`, `strconv` and `path/filepath` packages that the
 * compiler wrapper relies on, over Dafny strings (sequences of Unicode scalar
 * values; Go indexes UTF-8 bytes, which only shifts positions, not results).
 */
module GoStrings {

  /** unicode.IsSpace: the characters strings.Fields splits on and strings.TrimSpace trims. */
  predicate IsSpace(c: char) {
    || c == '\t' || c == '\n' || c == '\U{000B}' || c == '\U{000C}' || c == '\r' || c == ' '
    || c == '\U{0085}' || c == '\U{00A0}' || c == '\U{1680}'
    || ('\U{2000}' <= c <= '\U{200A}')
    || c == '\U{2028}' || c == '\U{2029}' || c == '\U{202F}' || c == '\U{205F}' || c == '\U{3000}'
  }

  predicate NoSpace(s: string) {
    forall i :: 0 <= i < |s| ==> !IsSpace(s[i])
  }

  /** A word that survives strings.Fields unchanged: non-empty and free of white space. */
  predicate IsWord(s: string) {
    s != [] && NoSpace(s)
  }

  predicate AllWords(xs: seq<string>) {
    forall i :: 0 <= i < |xs| ==> IsWord(xs[i])
  }

  /** strings.Join */
  function Join(xs: seq<string>, sep: string): string
  {
    if |xs| == 0 then ""
    else if |xs| == 1 then xs[0]
    else xs[0] + sep + Join(xs[1..], sep)
  }

  // ---------------------------------------------------------------------------
  // strings.Fields

  /** The longest prefix of `s` without white space. */
  function LeadingWord(s: string): (w: string)
    ensures |w| <= |s| && NoSpace(w)
    ensures |w| < |s| ==> IsSpace(s[|w|])
  {
    if s == [] || IsSpace(s[0]) then [] else [s[0]] + LeadingWord(s[1..])
  }

  /** strings.Fields: the maximal runs of non-space characters of `s`, in order. */
  function Fields(s: string): (r: seq<string>)
    ensures AllWords(r)
    decreases |s|
  {
    if s == [] then []
    else if IsSpace(s[0]) then Fields(s[1..])
    else
      var w := LeadingWord(s);
      [w] + Fields(s[|w|..])
  }

  lemma {:induction false} LeadingWordOfWord(w: string, rest: string)
    requires NoSpace(w)
    requires rest == [] || IsSpace(rest[0])
    ensures LeadingWord(w + rest) == w
  {
    if w != [] {
      assert (w + rest)[1..] == w[1..] + rest;
      LeadingWordOfWord(w[1..], rest);
    }
  }

  /** Fields undoes a single-space Join of words. */
  lemma {:induction false} FieldsOfJoin(xs: seq<string>)
    requires AllWords(xs)
    ensures Fields(Join(xs, " ")) == xs
  {
    if |xs| == 1 {
      LeadingWordOfWord(xs[0], []);
      assert xs[0] + [] == xs[0];
      assert xs[0][|xs[0]|..] == [];
    } else if |xs| > 1 {
      var tail := Join(xs[1..], " ");
      FieldsOfWordThenSpace(xs[0], tail);
      FieldsOfJoin(xs[1..]);
      assert xs == [xs[0]] + xs[1..];
    }
  }

  /** A word followed by a space starts the fields of the text. */
  lemma FieldsOfWordThenSpace(w: string, tail: string)
    requires w != [] && NoSpace(w)
    ensures Fields(w + " " + tail) == [w] + Fields(tail)
  {
    var s := w + " " + tail;
    assert s == w + (" " + tail);
    LeadingWordOfWord(w, " " + tail);
    assert s[|w|..] == " " + tail;
    assert (" " + tail)[1..] == tail;
  }

  // ---------------------------------------------------------------------------
  // strings.Split with a one-character separator

  /** strings.Split(s, [sep]): never empty; Split("", sep) == [""]. */
  function Split(s: string, sep: char): (r: seq<string>)
    ensures |r| >= 1
  {
    if s == [] then [""]
    else
      var rest := Split(s[1..], sep);
      if s[0] == sep then [""] + rest else [[s[0]] + rest[0]] + rest[1..]
  }

  predicate Excludes(s: string, c: char) {
    forall i :: 0 <= i < |s| ==> s[i] != c
  }

  lemma {:induction false} SplitAfterPiece(x: string, sep: char, tail: string)
    requires Excludes(x, sep)
    ensures Split(x + [sep] + tail, sep) == [x] + Split(tail, sep)
  {
    if x != [] {
      assert (x + [sep] + tail)[1..] == x[1..] + [sep] + tail;
      SplitAfterPiece(x[1..], sep, tail);
      assert [x[0]] + x[1..] == x;
      assert ([x[1..]] + Split(tail, sep))[1..] == Split(tail, sep);
    }
  }

  lemma {:induction false} SplitOfPiece(x: string, sep: char)
    requires Excludes(x, sep)
    ensures Split(x, sep) == [x]
  {
    if x != [] {
      SplitOfPiece(x[1..], sep);
      assert [x[0]] + x[1..] == x;
    }
  }

  /** Splitting undoes joining, when no piece holds the separator. */
  lemma {:induction false} SplitOfJoin(xs: seq<string>, sep: char)
    requires |xs| >= 1
    requires forall i :: 0 <= i < |xs| ==> Excludes(xs[i], sep)
    ensures Split(Join(xs, [sep]), sep) == xs
  {
    if |xs| == 1 {
      SplitOfPiece(xs[0], sep);
    } else {
      SplitAfterPiece(xs[0], sep, Join(xs[1..], [sep]));
      SplitOfJoin(xs[1..], sep);
      assert xs == [xs[0]] + xs[1..];
    }
  }

  /** Joining undoes splitting, for every string. */
  lemma {:induction false} JoinOfSplit(s: string, sep: char)
    ensures Join(Split(s, sep), [sep]) == s
  {
    if s != [] {
      var rest := Split(s[1..], sep);
      JoinOfSplit(s[1..], sep);
      if s[0] == sep {
        assert Join([""] + rest, [sep]) == "" + [sep] + Join(rest, [sep]);
      } else {
        var r := [[s[0]] + rest[0]] + rest[1..];
        if |rest| == 1 {
          assert Join(r, [sep]) == [s[0]] + rest[0];
        } else {
          assert r[1..] == rest[1..];
          assert Join(rest, [sep]) == rest[0] + [sep] + Join(rest[1..], [sep]);
          assert Join(r, [sep]) == [s[0]] + rest[0] + [sep] + Join(rest[1..], [sep]);
        }
      }
    }
  }

  // ---------------------------------------------------------------------------
  /** A character found neither in the pieces nor in the separator is not in their join. */
  lemma {:induction false} JoinExcludes(xs: seq<string>, sep: string, c: char)
    requires Excludes(sep, c)
    requires forall i :: 0 <= i < |xs| ==> Excludes(xs[i], c)
    ensures Excludes(Join(xs, sep), c)
  {
    if |xs| > 1 {
      JoinExcludes(xs[1..], sep, c);
    }
  }

  // strings.TrimSpace

  function TrimLeftSpace(s: string): (r: string)
    ensures |r| <= |s|
    ensures r == [] || !IsSpace(r[0])
    ensures forall i :: 0 <= i < |s| - |r| ==> IsSpace(s[i])
  {
    if s != [] && IsSpace(s[0]) then TrimLeftSpace(s[1..]) else s
  }

  lemma {:induction false} TrimLeftSpaceIsSuffix(s: string)
    ensures TrimLeftSpace(s) == s[|s| - |TrimLeftSpace(s)|..]
    decreases |s|
  {
    if s != [] && IsSpace(s[0]) {
      TrimLeftSpaceIsSuffix(s[1..]);
    }
  }

  function TrimRightSpace(s: string): (r: string)
    ensures |r| <= |s|
    ensures r == [] || !IsSpace(r[|r| - 1])
    ensures forall i :: |r| <= i < |s| ==> IsSpace(s[i])
  {
    if s != [] && IsSpace(s[|s| - 1]) then TrimRightSpace(s[..|s| - 1]) else s
  }

  lemma {:induction false} TrimRightSpaceIsPrefix(s: string)
    ensures TrimRightSpace(s) == s[..|TrimRightSpace(s)|]
    decreases |s|
  {
    if s != [] && IsSpace(s[|s| - 1]) {
      TrimRightSpaceIsPrefix(s[..|s| - 1]);
    }
  }

  /** strings.TrimSpace: `s` without its leading and trailing white space. */
  function TrimSpace(s: string): (r: string)
    ensures r == [] || (!IsSpace(r[0]) && !IsSpace(r[|r| - 1]))
  {
    var l := TrimLeftSpace(s);
    var r := TrimRightSpace(l);
    TrimRightSpaceIsPrefix(l);
    assert r != [] ==> r[0] == l[0];
    r
  }

  /** TrimSpace keeps a slice of `s`: the part after its leading white space. */
  lemma TrimSpaceIsSlice(s: string)
    ensures var r, k := TrimSpace(s), |s| - |TrimLeftSpace(s)|;
      k + |r| <= |s| && r == s[k..k + |r|]
  {
    var l := TrimLeftSpace(s);
    var r := TrimRightSpace(l);
    TrimLeftSpaceIsSuffix(s);
    TrimRightSpaceIsPrefix(l);
    assert r == s[|s| - |l|..|s| - |l| + |r|];
  }

  /** TrimSpace removes only white space, on both sides. */
  lemma TrimSpaceRemovesSpace(s: string)
    ensures var r, k := TrimSpace(s), |s| - |TrimLeftSpace(s)|;
      && (forall i :: 0 <= i < k ==> IsSpace(s[i]))
      && (forall i :: k + |r| <= i < |s| ==> IsSpace(s[i]))
  {
    var l := TrimLeftSpace(s);
    var r := TrimRightSpace(l);
    var k := |s| - |l|;
    TrimLeftSpaceIsSuffix(s);
    forall i | k + |r| <= i < |s| ensures IsSpace(s[i]) {
      assert s[i] == l[i - k];
    }
  }

  // ---------------------------------------------------------------------------
  // strings.Index

  predicate OccursAt(s: string, m: string, k: int) {
    0 <= k && k + |m| <= |s| && s[k..k + |m|] == m
  }

  /** The first position at or after `k` at which `m` occurs in `s`, or -1. */
  function IndexFrom(s: string, m: string, k: nat): (r: int)
    ensures r == -1 || (k <= r && OccursAt(s, m, r))
    ensures forall j :: k <= j && (r < 0 || j < r) ==> !OccursAt(s, m, j)
    decreases |s| - k
  {
    if k + |m| > |s| then -1
    else if s[k..k + |m|] == m then k
    else IndexFrom(s, m, k + 1)
  }

  /** strings.Index: the first position at which `m` occurs in `s`, or -1. */
  function Index(s: string, m: string): (r: int)
    ensures r == -1 || OccursAt(s, m, r)
    ensures forall k :: 0 <= k && (r < 0 || k < r) ==> !OccursAt(s, m, k)
  {
    IndexFrom(s, m, 0)
  }

  /** strings.LastIndex for a one-character needle: the last position of `c` in `s`, or -1. */
  function LastIndexChar(s: string, c: char): (r: int)
    ensures -1 <= r < |s|
    ensures r >= 0 ==> s[r] == c
    ensures forall i :: r < i < |s| ==> s[i] != c
  {
    if s == [] then -1
    else if s[|s| - 1] == c then |s| - 1
    else LastIndexChar(s[..|s| - 1], c)
  }

  /** The last `c` of a string is the one no later `c` follows. */
  lemma {:induction false} LastIndexCharBefore(x: string, c: char, y: string)
    requires Excludes(y, c)
    ensures LastIndexChar(x + [c] + y, c) == |x|
    decreases |y|
  {
    var s := x + [c] + y;
    if y == [] {
      assert s == x + [c];
    } else {
      var init := y[..|y| - 1];
      assert s[|s| - 1] == y[|y| - 1] != c;
      assert s[..|s| - 1] == x + [c] + init;
      assert forall i :: 0 <= i < |init| ==> init[i] == y[i];
      LastIndexCharBefore(x, c, init);
    }
  }

  /** strings.Contains */
  predicate Contains(s: string, m: string) {
    Index(s, m) >= 0
  }

  // ---------------------------------------------------------------------------
  // strconv.Itoa / fmt's %d

  function DigitChar(d: nat): char
    requires d < 10
  {
    "0123456789"[d]
  }

  predicate IsDigit(c: char) {
    '0' <= c <= '9'
  }

  predicate AllDigits(s: string) {
    forall i :: 0 <= i < |s| ==> IsDigit(s[i])
  }

  /** The number a string of decimal digits denotes (strconv.Atoi without a sign). */
  function DigitsValue(s: string): nat
    requires AllDigits(s)
  {
    if s == [] then 0 else DigitsValue(s[..|s| - 1]) * 10 + (s[|s| - 1] as int - '0' as int)
  }

  lemma DigitCharValue(d: nat)
    requires d < 10
    ensures IsDigit(DigitChar(d)) && DigitChar(d) as int - '0' as int == d
  {
    if d == 0 { assert DigitChar(d) == '0'; } else if d == 1 { assert DigitChar(d) == '1'; }
    else if d == 2 { assert DigitChar(d) == '2'; } else if d == 3 { assert DigitChar(d) == '3'; }
    else if d == 4 { assert DigitChar(d) == '4'; } else if d == 5 { assert DigitChar(d) == '5'; }
    else if d == 6 { assert DigitChar(d) == '6'; } else if d == 7 { assert DigitChar(d) == '7'; }
    else if d == 8 { assert DigitChar(d) == '8'; } else { assert DigitChar(d) == '9'; }
  }

  /** The decimal digits of `n`. */
  function NatToString(n: nat): (r: string)
    ensures r != [] && AllDigits(r)
  {
    if n < 10 then [DigitChar(n)] else NatToString(n / 10) + [DigitChar(n % 10)]
  }

  /** The digits are the shortest that read back as `n`: only zero itself starts with '0'. */
  lemma {:induction false} NatToStringValue(n: nat)
    ensures DigitsValue(NatToString(n)) == n
    ensures NatToString(n)[0] == '0' <==> n == 0
  {
    DigitCharValue(n % 10);
    if n >= 10 {
      var init := NatToString(n / 10);
      NatToStringValue(n / 10);
      var r := init + [DigitChar(n % 10)];
      assert r[..|r| - 1] == init;
      assert r[0] == init[0];
    }
  }

  /** The decimal text of `n` (strconv.Itoa, fmt's %d): a '-' exactly for a
      negative number, then the digits of its magnitude (IntToStringValue). */
  function IntToString(n: int): (r: string)
    ensures r != []
    ensures r[0] == '-' <==> n < 0
  {
    if n < 0 then "-" + NatToString(-n) else NatToString(n)
  }

  /** The text reads back as `n`: after the sign come the digits of its
      magnitude, with no leading zero. */
  lemma IntToStringValue(n: int)
    ensures var r := IntToString(n);
      var digits := if n < 0 then r[1..] else r;
      && digits != [] && AllDigits(digits)
      && DigitsValue(digits) == (if n < 0 then -n else n)
      && (digits[0] == '0' <==> n == 0)
  {
    var m := if n < 0 then -n else n;
    NatToStringValue(m);
    if n < 0 {
      assert ("-" + NatToString(m))[1..] == NatToString(m);
    }
  }

  // ---------------------------------------------------------------------------
  // path/filepath on Unix (without the normalisation filepath.Clean performs)

  /** filepath.IsAbs */
  predicate IsAbs(p: string) {
    p != [] && p[0] == '/'
  }

  /** filepath.Join of two elements: empty elements are dropped, and one '/'
      separates the two unless the directory already ends in one. */
  function PathJoin(dir: string, name: string): (r: string)
    ensures name != [] ==> |r| >= |name| && r[|r| - |name|..] == name
    ensures IsAbs(dir) ==> IsAbs(r)
    ensures dir != [] && name != [] ==>
      |r| == |TrimTrailingSlashes(dir)| + 1 + |name| && r[..|TrimTrailingSlashes(dir)| + 1] == TrimTrailingSlashes(dir) + "/"
  {
    if dir == [] then name
    else if name == [] then dir
    else if dir[|dir| - 1] == '/' then TrimTrailingSlashes(dir) + "/" + name
    else dir + "/" + name
  }

  /** `p` without the '/'s at its end. */
  function TrimTrailingSlashes(p: string): (r: string)
    ensures |r| <= |p| && r == p[..|r|]
    ensures r == [] || r[|r| - 1] != '/'
    ensures forall i :: |r| <= i < |p| ==> p[i] == '/'
  {
    if p != [] && p[|p| - 1] == '/' then TrimTrailingSlashes(p[..|p| - 1]) else p
  }

  /** The part of `p` after its last '/' (all of `p` when it has none). */
  function AfterLastSlash(p: string): (r: string)
    ensures |r| <= |p|
    ensures Excludes(r, '/')
    ensures |r| < |p| ==> p[|p| - |r| - 1] == '/'
  {
    if p == [] || p[|p| - 1] == '/' then [] else AfterLastSlash(p[..|p| - 1]) + [p[|p| - 1]]
  }

  /** What follows the last '/' is a suffix of the path. */
  lemma {:induction false} AfterLastSlashIsSuffix(p: string)
    ensures AfterLastSlash(p) == p[|p| - |AfterLastSlash(p)|..]
    decreases |p|
  {
    if p != [] && p[|p| - 1] != '/' {
      var q := p[..|p| - 1];
      AfterLastSlashIsSuffix(q);
      assert p == q + [p[|p| - 1]];
    }
  }

  /** filepath.Base: the last element of `p`; "." for the empty path, "/" for the root. */
  function Base(p: string): (r: string)
    ensures r != []
    ensures r == "/" || Excludes(r, '/')
  {
    if p == [] then "."
    else
      var t := TrimTrailingSlashes(p);
      if t == [] then "/" else AfterLastSlash(t)
  }

  /** What follows the last '/' of a path ending in a name is that name. */
  lemma {:induction false} AfterLastSlashOfName(x: string, name: string)
    requires Excludes(name, '/')
    requires x == [] || x[|x| - 1] == '/'
    ensures AfterLastSlash(x + name) == name
    decreases |name|
  {
    if name == [] {
      assert x + name == x;
    } else {
      var init, last := name[..|name| - 1], name[|name| - 1];
      AfterLastSlashOfName(x, init);
      AfterLastSlashSnoc(x, init, last);
      assert init + [last] == name;
    }
  }

  /** A character other than '/' at the end of a path extends what follows its last '/'. */
  lemma AfterLastSlashSnoc(x: string, init: string, c: char)
    requires c != '/'
    ensures AfterLastSlash(x + (init + [c])) == AfterLastSlash(x + init) + [c]
  {
    var q := x + init;
    assert x + (init + [c]) == q + [c];
    assert (q + [c])[..|q|] == q;
  }

  /** The base of a joined path is the name it was joined with. */
  lemma BaseOfPathJoin(dir: string, name: string)
    requires name != [] && Excludes(name, '/')
    ensures Base(PathJoin(dir, name)) == name
  {
    var p := PathJoin(dir, name);
    assert TrimTrailingSlashes(p) == p;
    if dir == [] {
      AfterLastSlashOfName([], name);
      assert [] + name == name;
    } else {
      assert p == TrimTrailingSlashes(dir) + "/" + name;
      AfterLastSlashOfName(TrimTrailingSlashes(dir) + "/", name);
    }
  }

  /** filepath.Dir: everything before the last '/', without the '/'s that end it;
      "." when there is no '/', "/" when only '/'s precede the last element. */
  function Dir(p: string): (r: string)
    ensures r != []
    ensures Excludes(p, '/') ==> r == "."
    ensures !Excludes(p, '/') ==> r == "/" || (|r| < |p| && r == p[..|r|] && r[|r| - 1] != '/' && p[|r|] == '/')
    ensures !Excludes(p, '/') ==>
      forall i :: (if r == "/" then 0 else |r|) <= i < |p| - |AfterLastSlash(p)| ==> p[i] == '/'
  {
    var name := AfterLastSlash(p);
    AfterLastSlashIsSuffix(p);
    if |name| == |p| then "."
    else
      var d := TrimTrailingSlashes(p[..|p| - |name|]);
      if d == [] then "/" else d
  }

  /** The directory of a joined path is the directory it was joined from, for a
      directory that is "/" or does not end in '/', and a slash-free name. */
  lemma DirOfPathJoin(dir: string, name: string)
    requires dir != [] && (dir == "/" || dir[|dir| - 1] != '/')
    requires name != [] && Excludes(name, '/')
    ensures Dir(PathJoin(dir, name)) == dir
  {
    var p := PathJoin(dir, name);
    var t := TrimTrailingSlashes(dir);
    assert p == t + "/" + name;
    AfterLastSlashOfName(t + "/", name);
    assert p[..|p| - |name|] == t + "/";
    assert TrimTrailingSlashes(t + "/") == t by {
      assert (t + "/")[..|t|] == t;
    }
    if dir == "/" {
      assert t == [];
    } else {
      assert t == dir;
    }
  }
}

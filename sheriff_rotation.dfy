/**
 * The sheriff rotation script: the sheriff file holds one sheriff per line,
 * the first line is the current sheriff, rotating moves the first entries to
 * the end, and the sheriff's week runs from a Saturday to the next Friday.
 * The file itself is its contents (a string); days are counted from
 * 1970-01-01, which was a Thursday, so day 2 is the first Saturday.
 * Python's `%` with a positive right operand never yields a negative number,
 * exactly like Dafny's, so `%` below is Python's.
 */
module SheriffRotation {
  import opened GoStrings

  /** The exceptions the script can raise. */
  datatype PyException = IndexError | ZeroDivisionError

  datatype PyResult<T> = Ok(value: T) | Raised(error: PyException)

  // ---------------------------------------------------------------------------
  // Reading and writing the sheriff file

  /** The line boundaries str.splitlines recognises on a byte string. */
  predicate IsLineBreak(c: char) {
    c == '\n' || c == '\r'
  }

  predicate NoLineBreak(s: string) {
    forall i :: 0 <= i < |s| ==> !IsLineBreak(s[i])
  }

  /** Where the first line of `s` ends: at its first line break, or at its end. */
  function LineEnd(s: string): (i: nat)
    ensures i <= |s|
    ensures forall j :: 0 <= j < i ==> !IsLineBreak(s[j])
    ensures i < |s| ==> IsLineBreak(s[i])
  {
    if s == [] then 0
    else if IsLineBreak(s[0]) then 0
    else
      var j := LineEnd(s[1..]);
      assert forall k :: 1 <= k < |s| ==> s[k] == s[1..][k - 1];
      j + 1
  }

  /** The first line ends where the first line break is, wherever the text goes on after it. */
  lemma LineEndOfBreak(a: string, b: string)
    requires NoLineBreak(a)
    requires b == [] || IsLineBreak(b[0])
    ensures LineEnd(a + b) == |a|
  {
    var s := a + b;
    assert forall j :: 0 <= j < |a| ==> s[j] == a[j];
    assert b != [] ==> IsLineBreak(s[|a|]);
  }

  /** How many characters the line break at `s[i]` takes: "\r\n" is one break. */
  function BreakLength(s: string, i: nat): nat
    requires i < |s|
  {
    if s[i] == '\r' && i + 1 < |s| && s[i + 1] == '\n' then 2 else 1
  }

  /** str.splitlines: the lines of `s` without their line breaks; no empty line
      is produced after a final line break. */
  function SplitLines(s: string): (lines: seq<string>)
    ensures lines == [] <==> s == []
    decreases |s|
  {
    if s == [] then []
    else
      var i := LineEnd(s);
      if i == |s| then [s]
      else [s[..i]] + SplitLines(s[i + BreakLength(s, i)..])
  }

  /** No line holds a line break. */
  lemma {:induction false} SplitLinesHaveNoBreak(s: string)
    ensures forall k :: 0 <= k < |SplitLines(s)| ==> NoLineBreak(SplitLines(s)[k])
    decreases |s|
  {
    if s != [] {
      var i := LineEnd(s);
      if i < |s| {
        var rest := s[i + BreakLength(s, i)..];
        SplitLinesHaveNoBreak(rest);
        var first, others := s[..i], SplitLines(rest);
        assert NoLineBreak(first);
        assert SplitLines(s) == [first] + others;
        forall k | 0 <= k < |others| + 1 ensures NoLineBreak(([first] + others)[k]) {
          if k > 0 {
            assert ([first] + others)[k] == others[k - 1];
          }
        }
      }
    }
  }

  /** ReadSheriffsAsList: the lines of the sheriff file. */
  function ReadSheriffsAsList(contents: string): (sheriffs: seq<string>)
    ensures forall k :: 0 <= k < |sheriffs| ==> NoLineBreak(sheriffs[k])
    ensures sheriffs == [] <==> contents == []
  {
    SplitLinesHaveNoBreak(contents);
    SplitLines(contents)
  }

  /** A list that survives a write and a read: no entry holds a line break and
      the last entry is not empty (splitlines drops an empty last line). */
  predicate Writable(xs: seq<string>) {
    && (forall k :: 0 <= k < |xs| ==> NoLineBreak(xs[k]))
    && (xs != [] ==> xs[|xs| - 1] != [])
  }

  /** WriteSheriffsAsList: the new contents of the sheriff file, the entries
      joined by newlines with none after the last. Reading them back gives the
      list written, whenever it is writable. */
  function WriteSheriffsAsList(toWrite: seq<string>): (contents: string)
    ensures Writable(toWrite) ==> ReadSheriffsAsList(contents) == toWrite
  {
    if Writable(toWrite) then
      SplitLinesOfJoin(toWrite);
      Join(toWrite, "\n")
    else Join(toWrite, "\n")
  }

  lemma {:induction false} SplitLinesOfJoin(xs: seq<string>)
    requires forall k :: 0 <= k < |xs| ==> NoLineBreak(xs[k])
    requires xs != [] ==> xs[|xs| - 1] != []
    ensures SplitLines(Join(xs, "\n")) == xs
  {
    if |xs| == 1 {
      SplitLinesOfLine(xs[0]);
    } else if |xs| >= 2 {
      var x, tail := xs[0], xs[1..];
      LinesOfTail(xs);
      assert tail[|tail| - 1] == xs[|xs| - 1];
      SplitLinesOfJoin(tail);
      assert xs == [x] + tail;
      SplitLinesOfConsJoin(x, tail);
    }
  }

  /** The first entry of a joined list is its first line. */
  lemma SplitLinesOfConsJoin(x: string, tail: seq<string>)
    requires NoLineBreak(x) && tail != []
    ensures SplitLines(Join([x] + tail, "\n")) == [x] + SplitLines(Join(tail, "\n"))
  {
    assert ([x] + tail)[1..] == tail;
    assert Join([x] + tail, "\n") == x + "\n" + Join(tail, "\n");
    SplitLinesOfLineThenNewline(x, Join(tail, "\n"));
  }

  lemma LinesOfTail(xs: seq<string>)
    requires xs != [] && forall k :: 0 <= k < |xs| ==> NoLineBreak(xs[k])
    ensures forall k :: 0 <= k < |xs[1..]| ==> NoLineBreak(xs[1..][k])
  {
    assert forall k :: 0 <= k < |xs[1..]| ==> xs[1..][k] == xs[k + 1];
  }

  /** A non-empty text without line breaks is one line. */
  lemma SplitLinesOfLine(line: string)
    requires line != [] && NoLineBreak(line)
    ensures SplitLines(line) == [line]
  {
    LineEndOfBreak(line, []);
    assert line + [] == line;
  }

  /** A line followed by a newline starts the lines of the text. */
  lemma SplitLinesOfLineThenNewline(line: string, rest: string)
    requires NoLineBreak(line)
    ensures SplitLines(line + "\n" + rest) == [line] + SplitLines(rest)
  {
    var s := line + "\n" + rest;
    assert s == line + ("\n" + rest);
    LineEndOfBreak(line, "\n" + rest);
    assert s[|line|] == '\n';
    assert s[..|line|] == line;
    assert s[|line| + 1..] == rest;
  }

  // ---------------------------------------------------------------------------
  // The current sheriff and the rotation

  /** GetCurrentSheriff: the first line of the sheriff file; an empty file has no
      first line and raises IndexError. */
  function GetCurrentSheriff(contents: string): (r: PyResult<string>)
    ensures r.Raised? <==> contents == []
    ensures r.Raised? ==> r.error == IndexError
    ensures r.Ok? ==> NoLineBreak(r.value) && |r.value| <= |contents| && contents[..|r.value|] == r.value
    ensures r.Ok? && |r.value| < |contents| ==> IsLineBreak(contents[|r.value|])
  {
    var sheriffs := ReadSheriffsAsList(contents);
    if sheriffs == [] then Raised(IndexError) else Ok(sheriffs[0])
  }

  /** The list with its first `n mod |l|` entries moved to the end, in order. */
  function Rotate(l: seq<string>, n: int): (r: seq<string>)
    requires l != []
    ensures |r| == |l|
    ensures forall i :: 0 <= i < |l| ==> r[i] == l[(i + n) % |l|]
  {
    var k := n % |l|;
    var r := l[k..] + l[..k];
    assert forall i :: 0 <= i < |l| ==> r[i] == l[(i + n) % |l|] by {
      forall i | 0 <= i < |l| ensures r[i] == l[(i + n) % |l|] {
        RotateIndex(|l|, n, i);
      }
    }
    r
  }

  /** Where entry `i` of the rotation comes from: `i + k` before the wrap, `i + k - len` after it. */
  lemma RotateIndex(len: nat, n: int, i: nat)
    requires 0 <= i < len
    ensures var k := n % len;
      (i < len - k ==> (i + n) % len == i + k) && (i >= len - k ==> (i + n) % len == i + k - len)
  {
    var k, q := n % len, n / len;
    if i < len - k {
      DivModUnique(i + n, q, i + k, len);
    } else {
      DivModUnique(i + n, q + 1, i + k - len, len);
    }
  }

  /** Adding a multiple of `len` does not change the remainder. */
  lemma ModShift(x: int, q: int, len: nat)
    requires len > 0
    ensures (x + q * len) % len == x % len
  {
    var y := x + q * len;
    assert y == (x / len + q) * len + x % len;
    DivModUnique(y, x / len + q, x % len, len);
  }

  /** The quotient and remainder of Euclidean division are unique. */
  lemma DivModUnique(y: int, q: int, m: int, len: nat)
    requires len > 0 && 0 <= m < len && y == q * len + m
    ensures y % len == m
  {
    assert (y / len - q) * len == m - y % len;
    MulSign(y / len - q, len);
  }

  /** A non-zero multiple of `len` is at least `len` away from zero. */
  lemma {:induction false} MulSign(d: int, len: int)
    requires len >= 0
    ensures d >= 1 ==> d * len >= len
    ensures d <= -1 ==> d * len <= -len
    decreases if d < 0 then -d else d
  {
    if d > 1 {
      MulSign(d - 1, len);
      assert d * len == (d - 1) * len + len;
    } else if d < -1 {
      MulSign(d + 1, len);
      assert d * len == (d + 1) * len - len;
    }
  }

  /** The rotation holds every entry as often as the list does. */
  lemma RotateIsPermutation(l: seq<string>, n: int)
    requires l != []
    ensures multiset(Rotate(l, n)) == multiset(l)
  {
    var k := n % |l|;
    assert l == l[..k] + l[k..];
  }

  /** Rotating by a multiple of the list's length, zero included, changes nothing. */
  lemma RotateByMultiple(l: seq<string>, m: int)
    requires l != []
    ensures Rotate(l, m * |l|) == l
  {
    var len := |l|;
    var n := m * len;
    var r := Rotate(l, n);
    forall i | 0 <= i < len ensures r[i] == l[i] {
      ModShift(i, m, len);
      DivModUnique(i, 0, i, len);
      assert (i + n) % len == i;
    }
  }

  /** A single rotation hands the duty to the next sheriff and puts the current one last. */
  lemma RotateOnce(l: seq<string>)
    requires l != []
    ensures Rotate(l, 1) == l[1..] + [l[0]]
  {
    var len := |l|;
    var r, s := Rotate(l, 1), l[1..] + [l[0]];
    forall i | 0 <= i < len ensures r[i] == s[i] {
      assert r[i] == l[(i + 1) % len];
      if i + 1 == len {
        DivModUnique(i + 1, 1, 0, len);
      } else {
        DivModUnique(i + 1, 0, i + 1, len);
        assert s[i] == l[1..][i];
      }
    }
  }

  /** GetRotatedSheriffs: the sheriff list rotated `numRotations` times;
      an empty file raises ZeroDivisionError. */
  function GetRotatedSheriffs(contents: string, numRotations: int): (r: PyResult<seq<string>>)
    ensures r.Raised? <==> contents == []
    ensures r.Raised? ==> r.error == ZeroDivisionError
    ensures r.Ok? ==> var l := ReadSheriffsAsList(contents);
      |r.value| == |l| && forall i :: 0 <= i < |l| ==> r.value[i] == l[(i + numRotations) % |l|]
  {
    var sheriffList := ReadSheriffsAsList(contents);
    if |sheriffList| == 0 then Raised(ZeroDivisionError)
    else Ok(Rotate(sheriffList, numRotations))
  }

  /** Rotating by `n` and writing the result back (`-r n -w`) makes entry `n mod len`
      the current sheriff and keeps the whole rotated list, when no line of the
      file is blank. */
  lemma RotateAndWrite(contents: string, n: int)
    requires contents != []
    requires forall k :: 0 <= k < |ReadSheriffsAsList(contents)| ==> ReadSheriffsAsList(contents)[k] != []
    ensures var l := ReadSheriffsAsList(contents);
      var written := WriteSheriffsAsList(GetRotatedSheriffs(contents, n).value);
      && ReadSheriffsAsList(written) == Rotate(l, n)
      && GetCurrentSheriff(written) == Ok(l[n % |l|])
  {
    var l := ReadSheriffsAsList(contents);
    var r := Rotate(l, n);
    assert r[|r| - 1] == l[(|r| - 1 + n) % |l|];
    assert Writable(r);
    assert r[0] == l[(0 + n) % |l|];
  }

  // ---------------------------------------------------------------------------
  // The sheriff's week

  /** GetWeekInfo as written: the first and last day of the week holding `days`
      (its distance in days from 1970-01-01), counting from abs(days). */
  function GetWeekInfoAsWritten(days: int): (week: (int, int))
    ensures week.0 <= days <= week.1 && week.1 - week.0 == 6
  {
    var absDays := (if days < 0 then -days else days) - 2;
    var dayOfWeek := absDays % 7;
    (days - dayOfWeek, days + (6 - dayOfWeek))
  }

  /** From the epoch on, the week as written starts on a Saturday. */
  lemma WeekAsWrittenStartsOnSaturday(days: int)
    requires days >= 0
    ensures (GetWeekInfoAsWritten(days).0 - 2) % 7 == 0
  {
    var m := (days - 2) % 7;
    DivModUnique(days - 2 - m, (days - 2) / 7, 0, 7);
  }

  /** Before the epoch it does not: 1969-12-31 (day -1, a Wednesday) is put in
      the week from Thursday 1969-12-25 to Wednesday 1969-12-31. */
  lemma WeekAsWrittenBeforeEpoch()
    ensures GetWeekInfoAsWritten(-1) == (-7, -1)
    ensures (GetWeekInfoAsWritten(-1).0 - 2) % 7 != 0
  {
    assert (1 - 2) % 7 == 6;
    assert (-9) % 7 == 5;
  }

  /** GetWeekInfo as intended: the Saturday-to-Friday week holding `days`. */
  function GetWeekInfo(days: int): (week: (int, int))
    ensures week.0 <= days <= week.1 && week.1 - week.0 == 6
    ensures (week.0 - 2) % 7 == 0
  {
    var dayOfWeek := (days - 2) % 7;
    DivModUnique(days - 2 - dayOfWeek, (days - 2) / 7, 0, 7);
    (days - dayOfWeek, days + (6 - dayOfWeek))
  }

  /** There is exactly one such week: any Saturday-to-Friday span holding `days` is the one given. */
  lemma GetWeekInfoUnique(days: int, begin: int)
    requires begin <= days <= begin + 6 && (begin - 2) % 7 == 0
    ensures GetWeekInfo(days) == (begin, begin + 6)
  {
    var b := GetWeekInfo(days).0;
    var q1, q2 := (begin - 2) / 7, (b - 2) / 7;
    assert begin - 2 == q1 * 7 && b - 2 == q2 * 7;
    assert (q1 - q2) * 7 == begin - b;
    MulSign(q1 - q2, 7);
  }

  /** The corrected week agrees with the one as written from the epoch on. */
  lemma GetWeekInfoAgreesFromEpoch(days: int)
    requires days >= 0
    ensures GetWeekInfo(days) == GetWeekInfoAsWritten(days)
  {
  }
}

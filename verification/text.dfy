/** The .NET string operations the tables and the compiler rely on, written
    out over `seq<char>`: `Split` with and without empty entries, `Join`,
    ordinal `Replace`, `StartsWith`, `Contains`, `Trim`, line reading, and
    the ASCII part of `ToLower`/`ToUpper`. */
module Text {

  /** True when no character of `s` belongs to `cs`. */
  predicate Free(s: string, cs: set<char>) {
    forall i :: 0 <= i < |s| ==> s[i] !in cs
  }

  /** Number of characters of `s` that belong to `cs`. */
  function Count(s: string, cs: set<char>): nat {
    if s == [] then 0
    else (if s[0] in cs then 1 else 0) + Count(s[1..], cs)
  }

  /** `s.Split(seps, StringSplitOptions.None)`: every separator closes a
      field, so empty fields survive and there is always one field more
      than there are separators. */
  function Split(s: string, seps: set<char>): (r: seq<string>)
    ensures |r| == Count(s, seps) + 1
    ensures forall i :: 0 <= i < |r| ==> Free(r[i], seps)
    decreases |s|
  {
    if s == [] then [""]
    else if s[0] in seps then [""] + Split(s[1..], seps)
    else
      var t := Split(s[1..], seps);
      [[s[0]] + t[0]] + t[1..]
  }

  /** `string.Join(sep, xs)`. */
  function Join(xs: seq<string>, sep: string): string {
    if |xs| == 0 then ""
    else if |xs| == 1 then xs[0]
    else xs[0] + sep + Join(xs[1..], sep)
  }

  /** The fields of `xs` that are not empty, in order. */
  function NonEmpty(xs: seq<string>): (r: seq<string>)
    ensures |r| <= |xs|
    ensures forall i :: 0 <= i < |r| ==> r[i] != "" && r[i] in xs
    ensures forall x :: x in xs && x != "" ==> x in r
  {
    if xs == [] then []
    else (if xs[0] == "" then [] else [xs[0]]) + NonEmpty(xs[1..])
  }

  /** `s.Split(seps, StringSplitOptions.RemoveEmptyEntries)`. */
  function SplitDrop(s: string, seps: set<char>): (r: seq<string>)
    ensures forall i :: 0 <= i < |r| ==> r[i] != "" && Free(r[i], seps)
  {
    NonEmpty(Split(s, seps))
  }

  /** Concatenation of the strings of `xs`. */
  function Concat(xs: seq<string>): string {
    if xs == [] then "" else xs[0] + Concat(xs[1..])
  }

  /** Every string of `xs` followed by a newline, the way a writer emits lines. */
  function Terminated(xs: seq<string>): string {
    if xs == [] then "" else xs[0] + "\n" + Terminated(xs[1..])
  }

  /** The lines a `TextReader` hands out one `ReadLine` at a time until it
      returns null: the text split at '\n', where a final newline does not
      start another line and the empty text has no line at all. */
  function ReadLines(s: string): (r: seq<string>)
    ensures s == "" <==> r == []
    ensures forall i :: 0 <= i < |r| ==> Free(r[i], {'\n'})
  {
    var parts := Split(s, {'\n'});
    if parts[|parts| - 1] == "" then
      assert s != "" ==> |parts| > 1 by {
        if s != "" && |parts| == 1 { SingleFieldIsWhole(s, {'\n'}); }
      }
      parts[..|parts| - 1]
    else parts
  }

  /** `s.StartsWith(p)`, ordinal. */
  predicate StartsWith(s: string, p: string) {
    p <= s
  }

  /** `s.Contains(sub)`, ordinal. */
  predicate Contains(s: string, sub: string)
    decreases |s|
  {
    sub <= s || (s != [] && Contains(s[1..], sub))
  }

  /** `s.Replace(pat, rep)`: ordinal, left to right, non-overlapping.
      .NET rejects an empty `pat` with an exception. */
  function Replace(s: string, pat: string, rep: string): string
    requires pat != ""
    decreases |s|
  {
    if |s| < |pat| then s
    else if s[..|pat|] == pat then rep + Replace(s[|pat|..], pat, rep)
    else [s[0]] + Replace(s[1..], pat, rep)
  }

  /** The characters `char.IsWhiteSpace` accepts: the Unicode space
      separators, the line and paragraph separators, U+0009..U+000D and
      U+0085. */
  const WhiteSpace: set<char> :=
    {'\U{0009}', '\U{000A}', '\U{000B}', '\U{000C}', '\U{000D}', '\U{0020}',
     '\U{0085}', '\U{00A0}', '\U{1680}', '\U{2000}', '\U{2001}', '\U{2002}',
     '\U{2003}', '\U{2004}', '\U{2005}', '\U{2006}', '\U{2007}', '\U{2008}',
     '\U{2009}', '\U{200A}', '\U{2028}', '\U{2029}', '\U{202F}', '\U{205F}', '\U{3000}'}

  predicate IsWhiteSpace(c: char) {
    c in WhiteSpace
  }

  function TrimStart(s: string): (r: string)
    ensures |r| <= |s| && r == s[|s| - |r|..]
    ensures r != "" ==> !IsWhiteSpace(r[0])
    ensures forall i :: 0 <= i < |s| - |r| ==> IsWhiteSpace(s[i])
  {
    if s != [] && IsWhiteSpace(s[0]) then TrimStart(s[1..]) else s
  }

  function TrimEnd(s: string): (r: string)
    ensures |r| <= |s| && r == s[..|r|]
    ensures r != "" ==> !IsWhiteSpace(r[|r| - 1])
    ensures forall i :: |r| <= i < |s| ==> IsWhiteSpace(s[i])
  {
    if s != [] && IsWhiteSpace(s[|s| - 1]) then TrimEnd(s[..|s| - 1]) else s
  }

  /** `s.Trim()`. */
  function Trim(s: string): string {
    TrimStart(TrimEnd(s))
  }

  /** Invariant-culture lower case on ASCII letters. */
  function LowerChar(c: char): char {
    if 'A' <= c <= 'Z' then (c as int + 32) as char else c
  }

  /** Invariant-culture upper case on ASCII letters. */
  function UpperChar(c: char): char {
    if 'a' <= c <= 'z' then (c as int - 32) as char else c
  }

  function ToLower(s: string): (r: string)
    ensures |r| == |s|
    ensures forall i :: 0 <= i < |s| ==> r[i] == LowerChar(s[i])
  {
    if s == [] then [] else [LowerChar(s[0])] + ToLower(s[1..])
  }

  /** The part of `s` before the first `c` (all of `s` when it has none):
      `s.Substring(0, s.IndexOf(c) == -1 ? s.Length : s.IndexOf(c))`. */
  function CutAt(s: string, c: char): (r: string)
    ensures r <= s
    ensures Free(r, {c})
    ensures r == s || s[|r|] == c
  {
    if s == [] || s[0] == c then [] else [s[0]] + CutAt(s[1..], c)
  }

  /** Decimal text of a natural number. */
  function NatToString(n: nat): string
    decreases n
  {
    var d := ['0' + (n % 10) as char];
    if n < 10 then d else NatToString(n / 10) + d
  }

  /** `int.ToString()` in the invariant culture. */
  function IntToString(i: int): string {
    if i < 0 then "-" + NatToString(-i) else NatToString(i)
  }

  // ---------------------------------------------------------------------
  // Lemmas

  /** A text split into a single field is that field. */
  lemma {:induction false} SingleFieldIsWhole(s: string, seps: set<char>)
    requires |Split(s, seps)| == 1
    ensures Split(s, seps) == [s]
    decreases |s|
  {
    if s != [] {
      assert s[0] !in seps;
      SingleFieldIsWhole(s[1..], seps);
      assert [s[0]] + s[1..] == s;
    }
  }

  /** A separator-free text is one field. */
  lemma {:induction false} SplitFree(x: string, seps: set<char>)
    requires Free(x, seps)
    ensures Split(x, seps) == [x]
    decreases |x|
  {
    if x != [] {
      SplitFree(x[1..], seps);
      assert [x[0]] + x[1..] == x;
    }
  }

  /** A separator-free field followed by a separator splits off as the
      first field. */
  lemma {:induction false} SplitCons(x: string, c: char, y: string, seps: set<char>)
    requires Free(x, seps) && c in seps
    ensures Split(x + [c] + y, seps) == [x] + Split(y, seps)
    decreases |x|
  {
    if x == [] {
      assert (x + [c] + y)[1..] == y;
    } else {
      assert (x + [c] + y)[1..] == x[1..] + [c] + y;
      SplitCons(x[1..], c, y, seps);
      assert [x[0]] + x[1..] == x;
    }
  }

  /** Splitting a join on its single separator gives the fields back when
      no field contains the separator. */
  lemma {:induction false} SplitJoin(xs: seq<string>, c: char)
    requires |xs| >= 1
    requires forall i :: 0 <= i < |xs| ==> Free(xs[i], {c})
    ensures Split(Join(xs, [c]), {c}) == xs
    decreases |xs|
  {
    if |xs| == 1 {
      SplitFree(xs[0], {c});
    } else {
      SplitJoin(xs[1..], c);
      SplitCons(xs[0], c, Join(xs[1..], [c]), {c});
      assert xs[0] + [c] + Join(xs[1..], [c]) == Join(xs, [c]);
      assert [xs[0]] + xs[1..] == xs;
    }
  }

  /** Joining the fields of a split on its single separator gives the text back. */
  lemma {:induction false} JoinSplit(s: string, c: char)
    ensures Join(Split(s, {c}), [c]) == s
    decreases |s|
  {
    if s != [] {
      JoinSplit(s[1..], c);
      var t := Split(s[1..], {c});
      if s[0] == c {
        assert Split(s, {c}) == [""] + t;
        assert s == [c] + s[1..];
      } else {
        var r := Split(s, {c});
        assert r == [[s[0]] + t[0]] + t[1..];
        if |t| == 1 {
          assert Join(r, [c]) == [s[0]] + t[0];
        } else {
          assert r[1..] == t[1..];
          assert Join(r, [c]) == [s[0]] + t[0] + [c] + Join(t[1..], [c]);
          assert Join(t, [c]) == t[0] + [c] + Join(t[1..], [c]);
        }
        assert s == [s[0]] + s[1..];
      }
    }
  }

  /** Newline-terminated lines split into the lines plus one empty tail. */
  lemma {:induction false} SplitTerminated(xs: seq<string>)
    requires forall i :: 0 <= i < |xs| ==> Free(xs[i], {'\n'})
    ensures Split(Terminated(xs), {'\n'}) == xs + [""]
    decreases |xs|
  {
    if xs != [] {
      SplitTerminated(xs[1..]);
      SplitCons(xs[0], '\n', Terminated(xs[1..]), {'\n'});
      assert xs[0] + "\n" + Terminated(xs[1..]) == xs[0] + ['\n'] + Terminated(xs[1..]);
      assert [xs[0]] + (xs[1..] + [""]) == xs + [""];
    }
  }

  /** Reading the lines of newline-terminated text gives exactly those lines. */
  lemma ReadTerminated(xs: seq<string>)
    requires forall i :: 0 <= i < |xs| ==> Free(xs[i], {'\n'})
    ensures ReadLines(Terminated(xs)) == xs
  {
    SplitTerminated(xs);
    assert (xs + [""])[..|xs|] == xs;
  }

  /** `Trim` leaves nothing exactly when every character is white space. */
  lemma TrimEmpty(s: string)
    ensures Trim(s) == "" <==> forall i :: 0 <= i < |s| ==> IsWhiteSpace(s[i])
  {
    var e := TrimEnd(s);
    if e != "" {
      assert e[|e| - 1] == s[|e| - 1];
      assert !IsWhiteSpace(e[|e| - 1]);
    }
  }

  /** A character absent from both the text and the replacement stays absent. */
  lemma {:induction false} ReplaceKeepsFree(s: string, pat: string, rep: string, cs: set<char>)
    requires pat != ""
    requires Free(s, cs) && Free(rep, cs)
    ensures Free(Replace(s, pat, rep), cs)
    decreases |s|
  {
    if |s| < |pat| {
    } else if s[..|pat|] == pat {
      ReplaceKeepsFree(s[|pat|..], pat, rep, cs);
    } else {
      ReplaceKeepsFree(s[1..], pat, rep, cs);
    }
  }

  /** Replacing a single character by text without it removes every
      occurrence of that character. */
  lemma {:induction false} ReplaceCharRemoves(s: string, c: char, rep: string)
    requires c !in rep
    ensures Free(Replace(s, [c], rep), {c})
    decreases |s|
  {
    if |s| < 1 {
    } else if s[..1] == [c] {
      ReplaceCharRemoves(s[1..], c, rep);
    } else {
      assert s[0] != c by { assert s[..1] == [s[0]]; }
      ReplaceCharRemoves(s[1..], c, rep);
    }
  }

  /** A text that does not contain `pat` is left unchanged. */
  lemma {:induction false} ReplaceAbsent(s: string, pat: string, rep: string)
    requires pat != ""
    requires !Contains(s, pat)
    ensures Replace(s, pat, rep) == s
    decreases |s|
  {
    if |s| >= |pat| {
      assert s[..|pat|] != pat;
      ReplaceAbsent(s[1..], pat, rep);
      assert [s[0]] + s[1..] == s;
    }
  }

  /** A pattern at the end of a text that never shows the pattern's first
      character is replaced there and nowhere else. */
  lemma {:induction false} ReplaceAtEnd(t: string, pat: string, rep: string)
    requires pat != "" && Free(t, {pat[0]})
    ensures Replace(t + pat, pat, rep) == t + rep
    decreases |t|
  {
    var s := t + pat;
    if t == [] {
      assert s == pat && s[|pat|..] == [];
    } else {
      assert s[0] == t[0] && s[0] != pat[0];
      assert s[..|pat|] != pat;
      assert s[1..] == t[1..] + pat;
      ReplaceAtEnd(t[1..], pat, rep);
      assert [t[0]] + (t[1..] + rep) == t + rep;
    }
  }

  /** A single character that does not occur is not contained. */
  lemma {:induction false} FreeNotContains(s: string, c: char)
    requires Free(s, {c})
    ensures !Contains(s, [c])
    decreases |s|
  {
    if s != [] {
      assert s[0] != c;
      assert Free(s[1..], {c});
      FreeNotContains(s[1..], c);
    }
  }

  /** A text none of whose characters is in `cs` is free of `cs`; stated
      through membership, which a literal text settles character by
      character. */
  lemma FreeOf(s: string, cs: set<char>)
    requires forall c :: c in s ==> c !in cs
    ensures Free(s, cs)
  {
    forall i | 0 <= i < |s| ensures s[i] !in cs {
      assert s[i] in s;
    }
  }

  /** The fields of a split keep every property the whole text has of
      avoiding characters. */
  lemma {:induction false} SplitKeepsFree(s: string, seps: set<char>, cs: set<char>)
    requires Free(s, cs)
    ensures forall i :: 0 <= i < |Split(s, seps)| ==> Free(Split(s, seps)[i], cs)
    decreases |s|
  {
    if s != [] {
      assert Free(s[1..], cs);
      SplitKeepsFree(s[1..], seps, cs);
      if s[0] !in seps {
        var t := Split(s[1..], seps);
        FreeConcat([s[0]], t[0], cs);
      }
    }
  }

  /** A concatenation of texts avoiding some characters avoids them. */
  lemma {:induction false} FreeConcatAll(xs: seq<string>, cs: set<char>)
    requires forall i :: 0 <= i < |xs| ==> Free(xs[i], cs)
    ensures Free(Concat(xs), cs)
    decreases |xs|
  {
    if xs != [] {
      FreeConcatAll(xs[1..], cs);
      FreeConcat(xs[0], Concat(xs[1..]), cs);
    }
  }

  /** Replacing a single character distributes over concatenation. */
  lemma {:induction false} ReplaceCharConcat(x: string, y: string, c: char, rep: string)
    ensures Replace(x + y, [c], rep) == Replace(x, [c], rep) + Replace(y, [c], rep)
    decreases |x|
  {
    if x != [] {
      ReplaceCharConcat(x[1..], y, c, rep);
      assert (x + y)[1..] == x[1..] + y;
      assert (x + y)[..1] == x[..1];
    } else {
      assert x + y == y;
    }
  }

  /** A text without the pattern's first character does not contain it. */
  lemma {:induction false} NotContainsHead(s: string, pat: string)
    requires pat != "" && Free(s, {pat[0]})
    ensures !Contains(s, pat)
    decreases |s|
  {
    if s != [] {
      assert s[0] != pat[0];
      assert Free(s[1..], {pat[0]});
      NotContainsHead(s[1..], pat);
    }
  }

  /** Leading empty fields make no difference to the non-empty ones. */
  lemma {:induction false} NonEmptySkip(xs: seq<string>, i: nat)
    requires i <= |xs|
    requires forall k :: 0 <= k < i ==> xs[k] == ""
    ensures NonEmpty(xs) == NonEmpty(xs[i..])
    decreases i
  {
    if i > 0 {
      assert xs[1..][i - 1..] == xs[i..];
      NonEmptySkip(xs[1..], i - 1);
    }
  }

  /** A concatenation avoids a set of characters exactly when both parts do. */
  lemma FreeConcat(a: string, b: string, cs: set<char>)
    ensures Free(a + b, cs) <==> Free(a, cs) && Free(b, cs)
  {
    if Free(a, cs) && Free(b, cs) {
      forall i | 0 <= i < |a + b| ensures (a + b)[i] !in cs {
        if i >= |a| {
          assert (a + b)[i] == b[i - |a|];
        }
      }
    }
    if Free(a + b, cs) {
      forall i | 0 <= i < |b| ensures b[i] !in cs {
        assert (a + b)[|a| + i] == b[i];
      }
      forall i | 0 <= i < |a| ensures a[i] !in cs {
        assert (a + b)[i] == a[i];
      }
    }
  }

  /** Joining one more field appends the separator and the field. */
  lemma {:induction false} JoinSnoc(xs: seq<string>, x: string, sep: string)
    ensures Join(xs + [x], sep) == if xs == [] then x else Join(xs, sep) + sep + x
    decreases |xs|
  {
    if |xs| >= 2 {
      assert (xs + [x])[1..] == xs[1..] + [x];
      JoinSnoc(xs[1..], x, sep);
    } else if |xs| == 1 {
      assert (xs + [x])[1..] == [x];
    }
  }

  /** Terminating one more line appends it and a newline. */
  lemma {:induction false} TerminatedSnoc(xs: seq<string>, x: string)
    ensures Terminated(xs + [x]) == Terminated(xs) + x + "\n"
    decreases |xs|
  {
    if xs != [] {
      assert (xs + [x])[1..] == xs[1..] + [x];
      TerminatedSnoc(xs[1..], x);
    }
  }

  /** A join of fields avoiding some characters, on a separator avoiding
      them too, avoids them. */
  lemma {:induction false} FreeJoin(xs: seq<string>, sep: string, cs: set<char>)
    requires Free(sep, cs)
    requires forall i :: 0 <= i < |xs| ==> Free(xs[i], cs)
    ensures Free(Join(xs, sep), cs)
    decreases |xs|
  {
    if |xs| >= 2 {
      FreeJoin(xs[1..], sep, cs);
      FreeConcat(xs[0], sep, cs);
      FreeConcat(xs[0] + sep, Join(xs[1..], sep), cs);
    }
  }

  /** A join of separator-free fields holds one separator fewer than fields. */
  lemma JoinCount(xs: seq<string>, c: char)
    requires |xs| >= 1
    requires forall i :: 0 <= i < |xs| ==> Free(xs[i], {c})
    ensures Count(Join(xs, [c]), {c}) == |xs| - 1
  {
    SplitJoin(xs, c);
  }

  /** A list with no empty field is its own `NonEmpty`. */
  lemma {:induction false} NonEmptyAll(xs: seq<string>)
    requires forall i :: 0 <= i < |xs| ==> xs[i] != ""
    ensures NonEmpty(xs) == xs
    decreases |xs|
  {
    if xs != [] {
      NonEmptyAll(xs[1..]);
      assert [xs[0]] + xs[1..] == xs;
    }
  }

  /** `Trim` removes one leading white space from a text that starts and
      ends with something else. */
  lemma TrimPadded(c: char, t: string)
    requires IsWhiteSpace(c) && t != "" && !IsWhiteSpace(t[0]) && !IsWhiteSpace(t[|t| - 1])
    ensures Trim([c] + t) == t
  {
    var s := [c] + t;
    assert s[|s| - 1] == t[|t| - 1];
    assert TrimEnd(s) == s;
    assert s[1..] == t;
    assert TrimStart(s) == TrimStart(t);
  }

  /** The last character of a join is the last character of its last field. */
  lemma {:induction false} JoinLast(xs: seq<string>, sep: string)
    requires |xs| >= 1 && xs[|xs| - 1] != ""
    ensures var j := Join(xs, sep); j != "" && j[|j| - 1] == xs[|xs| - 1][|xs[|xs| - 1]| - 1]
  {
    var n := |xs| - 1;
    assert xs == xs[..n] + [xs[n]];
    JoinSnoc(xs[..n], xs[n], sep);
  }

  /** The first character of a join is the first character of its first field. */
  lemma {:induction false} JoinFirst(xs: seq<string>, sep: string)
    requires |xs| >= 1 && xs[0] != ""
    ensures var j := Join(xs, sep); j != "" && j[0] == xs[0][0]
  {
  }
}

/** The `System.IO.Path` operations the compilers use (`GetExtension`,
    `GetFileName`, `GetFileNameWithoutExtension`, `ChangeExtension`), as
    the .NET Framework on Windows defines them: '\\', '/' and ':' end a
    directory or volume part, and the extension is the text from the last
    '.' of the file name. */
module Paths {
  import opened Wrappers
  import Text

  const Separators: set<char> := {'\\', '/', ':'}

  /** Where the file name starts: just after the last separator. */
  function FileStart(path: string): (r: nat)
    ensures r <= |path|
    ensures Text.Free(path[r..], Separators)
    ensures r > 0 ==> path[r - 1] in Separators
    decreases |path|
  {
    if path == [] then 0
    else if path[|path| - 1] in Separators then |path|
    else
      var r := FileStart(path[..|path| - 1]);
      assert path[r..] == path[..|path| - 1][r..] + [path[|path| - 1]];
      r
  }

  /** The position of the '.' that starts the extension: the last '.'
      met scanning back from the end before any separator. */
  function LastDot(path: string): (r: Option<nat>)
    ensures r.Some? ==> FileStart(path) <= r.value < |path| && path[r.value] == '.'
    ensures r.Some? ==> Text.Free(path[r.value + 1..], {'.'})
    ensures r.None? ==> Text.Free(path[FileStart(path)..], {'.'})
    decreases |path|
  {
    if path == [] then None
    else if path[|path| - 1] == '.' then Some(|path| - 1)
    else if path[|path| - 1] in Separators then None
    else
      var n: nat := |path| - 1;
      var init := path[..n];
      var r := LastDot(init);
      var fs := FileStart(init);
      assert FileStart(path) == fs;
      assert path[fs..] == init[fs..] + [path[n]];
      if r.Some? then
        assert path[r.value + 1..] == init[r.value + 1..] + [path[n]];
        r
      else r
  }

  /** `Path.GetExtension`: from the extension's '.' to the end, or empty
      when there is no '.' or it is the last character. */
  function GetExtension(path: string): (r: string)
    ensures |r| <= |path|
    ensures r != "" ==> r[0] == '.' && Text.Free(r[1..], Separators + {'.'})
    ensures r == path[|path| - |r|..]
  {
    match LastDot(path)
    case None => ""
    case Some(i) =>
      if i != |path| - 1 then
        assert path[i..][1..] == path[i + 1..];
        assert Text.Free(path[i + 1..], Separators) by {
          assert path[i + 1..] == path[FileStart(path)..][i + 1 - FileStart(path)..];
        }
        path[i..]
      else ""
  }

  /** `Path.GetFileName`: the text after the last separator. */
  function GetFileName(path: string): (r: string)
    ensures Text.Free(r, Separators)
    ensures |r| <= |path| && r == path[|path| - |r|..]
  {
    path[FileStart(path)..]
  }

  /** `Path.GetFileNameWithoutExtension`: the file name up to its last '.'. */
  function GetFileNameWithoutExtension(path: string): (r: string)
    ensures Text.Free(r, Separators)
    ensures r <= GetFileName(path)
  {
    var name := GetFileName(path);
    match LastDot(name)
    case None => name
    case Some(i) => name[..i]
  }

  /** `Path.ChangeExtension(path, extension)`: the extension (from the last
      '.' of the file name) is cut off; a non-null extension is then
      appended, with a '.' in front unless it starts with one. An empty
      path stays empty. */
  function ChangeExtension(path: string, extension: Option<string>): (r: string)
    ensures path == "" ==> r == ""
  {
    var stem := match LastDot(path) case Some(i) => path[..i] case None => path;
    if extension.Some? && path != "" then
      (if extension.value == "" || extension.value[0] != '.' then stem + "." else stem) + extension.value
    else stem
  }

  /** The part `ChangeExtension` keeps. */
  function Stem(path: string): (r: string)
    ensures r <= path
    ensures LastDot(path).Some? ==> |r| == LastDot(path).value
    ensures LastDot(path).None? ==> r == path
  {
    match LastDot(path) case Some(i) => path[..i] case None => path
  }

  /** An extension `ChangeExtension` appends as it is: a '.' followed by
      at least one character that is neither '.' nor a separator. */
  predicate PlainExtension(e: string) {
    |e| >= 2 && e[0] == '.' && Text.Free(e[1..], Separators + {'.'})
  }

  // ---------------------------------------------------------------------
  // Lemmas

  /** Appending separator-free text leaves the file name's start alone. */
  lemma {:induction false} FileStartAppend(a: string, x: string)
    requires Text.Free(x, Separators)
    ensures FileStart(a + x) == FileStart(a)
    decreases |x|
  {
    if x != [] {
      var ax := a + x;
      var init := x[..|x| - 1];
      assert ax[..|ax| - 1] == a + init;
      assert ax[|ax| - 1] == x[|x| - 1];
      assert x[|x| - 1] !in Separators;
      assert FileStart(ax) == FileStart(ax[..|ax| - 1]);
      FileStartAppend(a, init);
    } else {
      assert a + x == a;
    }
  }

  /** Appending text with neither '.' nor a separator leaves the last dot alone. */
  lemma {:induction false} LastDotAppend(a: string, x: string)
    requires Text.Free(x, Separators + {'.'})
    ensures LastDot(a + x) == LastDot(a)
    decreases |x|
  {
    if x != [] {
      var n: nat := |x| - 1;
      var init := x[..n];
      assert Text.Free(init, Separators + {'.'}) by {
        forall i | 0 <= i < |init| ensures init[i] !in Separators + {'.'} {
          assert init[i] == x[i];
        }
      }
      var ax := a + x;
      assert ax[..|ax| - 1] == a + init;
      LastDotSkip(ax, x[n]);
      LastDotAppend(a, init);
    } else {
      assert a + x == a;
    }
  }

  /** A last character that is neither '.' nor a separator is passed over. */
  lemma LastDotSkip(p: string, c: char)
    requires p != [] && p[|p| - 1] == c && c !in Separators + {'.'}
    ensures LastDot(p) == LastDot(p[..|p| - 1])
  {
  }

  /** A plain extension appended after a '.' is where the last dot is. */
  lemma {:induction false} DotExtension(stem: string, e: string)
    requires PlainExtension(e)
    ensures LastDot(stem + "." + e[1..]) == Some(|stem|)
    ensures FileStart(stem + "." + e[1..]) == FileStart(stem)
  {
    DotIsLast(stem, e[1..]);
    DotKeepsStart(stem, e[1..]);
  }

  lemma {:induction false} DotIsLast(stem: string, tail: string)
    requires Text.Free(tail, Separators + {'.'})
    ensures LastDot(stem + "." + tail) == Some(|stem|)
  {
    var dotted := stem + ".";
    LastDotAppend(dotted, tail);
    assert dotted[|dotted| - 1] == '.';
  }

  lemma {:induction false} DotKeepsStart(stem: string, tail: string)
    requires Text.Free(tail, Separators + {'.'})
    ensures FileStart(stem + "." + tail) == FileStart(stem)
  {
    var ext := "." + tail;
    assert Text.Free(ext, Separators) by {
      forall k | 0 <= k < |ext| ensures ext[k] !in Separators {
        if k > 0 { assert ext[k] == tail[k - 1]; }
      }
    }
    assert stem + "." + tail == stem + ext;
    FileStartAppend(stem, ext);
  }

  /** Removing the extension of `stem + "." + tail` leaves the stem. */
  lemma {:induction false} DroppedExtension(stem: string, tail: string)
    requires Text.Free(tail, Separators + {'.'})
    ensures ChangeExtension(stem + "." + tail, None) == stem
  {
    var path := stem + "." + tail;
    DotIsLast(stem, tail);
    assert path[..|stem|] == stem;
  }

  /** A plain extension is appended to the stem as it is. */
  lemma ChangeIsStemPlus(p: string, e: string)
    requires p != "" && PlainExtension(e)
    ensures ChangeExtension(p, Some(e)) == Stem(p) + e
  {
  }

  /** Whatever precedes a plain extension, it is the path's extension. */
  lemma {:induction false} PlainExtensionLast(a: string, e: string)
    requires PlainExtension(e)
    ensures GetExtension(a + e) == e
  {
    var tail := e[1..];
    assert e == [e[0]] + tail;
    assert a + e == a + "." + tail;
    DotExtension(a, e);
    assert (a + e)[|a|..] == e;
  }

  /** After `ChangeExtension(p, e)` with a plain extension e, the extension is e. */
  lemma ChangeExtensionThenGet(p: string, e: string)
    requires p != "" && PlainExtension(e)
    ensures GetExtension(ChangeExtension(p, Some(e))) == e
  {
    var stem := Stem(p);
    var r := ChangeExtension(p, Some(e));
    assert r == stem + "." + e[1..];
    DotExtension(stem, e);
    assert r[|stem|..] == e;
  }

  /** ... and the file name without extension is that of p. */
  lemma ChangeExtensionKeepsName(p: string, e: string)
    requires p != "" && PlainExtension(e)
    ensures GetFileNameWithoutExtension(ChangeExtension(p, Some(e))) == GetFileNameWithoutExtension(p)
  {
    var stem := Stem(p);
    var r := ChangeExtension(p, Some(e));
    assert r == stem + "." + e[1..];
    NameOfDotted(stem, e[1..]);
    StemName(p);
  }

  /** The name without extension of `stem + "." + tail` is the stem's file name. */
  lemma {:induction false} NameOfDotted(stem: string, tail: string)
    requires Text.Free(tail, Separators + {'.'})
    ensures GetFileNameWithoutExtension(stem + "." + tail) == stem[FileStart(stem)..]
  {
    var base := stem[FileStart(stem)..];
    var name := base + "." + tail;
    FileNameOfDotted(stem, tail);
    DotIsLast(base, tail);
    NameUpToDot(stem + "." + tail, name, |base|);
    assert name[..|base|] == base;
  }

  /** The name without extension stops at the file name's extension dot. */
  lemma NameUpToDot(path: string, name: string, i: nat)
    requires GetFileName(path) == name && LastDot(name) == Some(i)
    ensures GetFileNameWithoutExtension(path) == name[..i]
  {
  }

  lemma {:induction false} FileNameOfDotted(stem: string, tail: string)
    requires Text.Free(tail, Separators + {'.'})
    ensures GetFileName(stem + "." + tail) == stem[FileStart(stem)..] + "." + tail
  {
    DotKeepsStart(stem, tail);
    var fs := FileStart(stem);
    assert (stem + "." + tail)[fs..] == stem[fs..] + "." + tail;
  }

  /** The stem's file name is the name without extension. */
  lemma {:induction false} StemName(p: string)
    ensures Stem(p)[FileStart(Stem(p))..] == GetFileNameWithoutExtension(p)
  {
    var fs := FileStart(p);
    StemFileStart(p);
    var name0 := GetFileName(p);
    match LastDot(p)
    case None =>
      LastDotFree(name0);
    case Some(i) =>
      LastDotShift(p, fs, i);
      assert name0[..i - fs] == p[..i][fs..];
  }

  /** A name without '.' has no extension dot. */
  lemma {:induction false} LastDotFree(s: string)
    requires Text.Free(s, {'.'})
    ensures LastDot(s).None?
    decreases |s|
  {
    if s != [] && s[|s| - 1] !in Separators {
      LastDotFree(s[..|s| - 1]);
    }
  }

  /** The extension dot of a path, seen from the file name's start. */
  lemma {:induction false} LastDotShift(p: string, fs: nat, i: nat)
    requires fs == FileStart(p) && LastDot(p) == Some(i)
    ensures LastDot(p[fs..]) == Some(i - fs)
    decreases |p|
  {
    if p[|p| - 1] != '.' {
      var init := p[..|p| - 1];
      assert p[fs..][..|p[fs..]| - 1] == init[fs..];
      assert FileStart(init) == fs;
      LastDotShift(init, fs, i);
    }
  }

  /** Cutting the extension off leaves the file name's start alone. */
  lemma StemFileStart(p: string)
    ensures FileStart(Stem(p)) == FileStart(p)
  {
    match LastDot(p)
    case None =>
    case Some(i) =>
      StemFileStartAt(p, i);
  }

  lemma {:induction false} StemFileStartAt(p: string, i: nat)
    requires LastDot(p) == Some(i)
    ensures FileStart(p[..i]) == FileStart(p)
    decreases |p|
  {
    if p[|p| - 1] != '.' {
      var init := p[..|p| - 1];
      assert init[..i] == p[..i];
      StemFileStartAt(init, i);
    }
  }

  /** Changing to the same plain extension twice is changing once. */
  lemma ChangeExtensionIdempotent(p: string, e: string)
    requires p != "" && PlainExtension(e)
    ensures ChangeExtension(ChangeExtension(p, Some(e)), Some(e)) == ChangeExtension(p, Some(e))
  {
    var stem := Stem(p);
    var r := ChangeExtension(p, Some(e));
    assert r == stem + "." + e[1..];
    DotExtension(stem, e);
    assert Stem(r) == stem;
  }
}

/** `TableColumnVars` (TableML/TableMLCompiler/TableColumnVars.cs): one
    kept column of a compiled table, with the two derived type strings the
    code templates use. */
module ColumnVars {
  import Text

  /** A field of the compiled table: its position among the kept columns,
      its declared type, name, default value and comment. */
  datatype ColumnVars = ColumnVars(index: int, typeName: string, name: string, defaultValue: string, comment: string)

  /** The characters `TypeMethod` turns into or out of identifier characters. */
  const Punctuation: set<char> := {'<', '>', ','}

  /** `TypeMethod`: the type text made usable inside a method name:
      "[]" becomes "_array", '<' becomes '_', '>' disappears and ','
      becomes '_', in that order. */
  function TypeMethod(typeName: string): (r: string)
    ensures Text.Free(r, Punctuation)
  {
    var a := Text.Replace(typeName, "[]", "_array");
    var b := Text.Replace(a, "<", "_");
    var c := Text.Replace(b, ">", "");
    var d := Text.Replace(c, ",", "_");
    Text.ReplaceCharRemoves(a, '<', "_");
    Text.ReplaceKeepsFree(b, ">", "", {'<'});
    Text.ReplaceCharRemoves(b, '>', "");
    Text.ReplaceKeepsFree(c, ",", "_", {'<'});
    Text.ReplaceKeepsFree(c, ",", "_", {'>'});
    Text.ReplaceCharRemoves(c, ',', "_");
    assert Text.Free(d, Punctuation) by {
      forall i | 0 <= i < |d| ensures d[i] !in Punctuation {
        assert d[i] != '<' && d[i] != '>' && d[i] != ',';
      }
    }
    d
  }

  /** `FormatType`: the declared type, as it is. */
  function FormatType(v: ColumnVars): string {
    v.typeName
  }

  // ---------------------------------------------------------------------
  // Lemmas

  /** A replacement at least as long as the pattern never shortens the
      text, and lengthens it when the pattern occurs. */
  lemma {:induction false} ReplaceGrows(s: string, pat: string, rep: string)
    requires pat != "" && |rep| > |pat|
    ensures |Text.Replace(s, pat, rep)| >= |s|
    ensures Text.Contains(s, pat) ==> |Text.Replace(s, pat, rep)| > |s|
    decreases |s|
  {
    if |s| < |pat| {
      assert !Text.Contains(s, pat) by { NotContainsShort(s, pat); }
    } else if s[..|pat|] == pat {
      ReplaceGrows(s[|pat|..], pat, rep);
    } else {
      ReplaceGrows(s[1..], pat, rep);
    }
  }

  /** A text shorter than the pattern does not contain it. */
  lemma {:induction false} NotContainsShort(s: string, pat: string)
    requires |s| < |pat|
    ensures !Text.Contains(s, pat)
    decreases |s|
  {
    if s != [] {
      NotContainsShort(s[1..], pat);
    }
  }

  /** `TypeMethod` returns its argument unchanged exactly when the argument
      holds no "[]" and none of '<', '>' and ','. */
  lemma TypeMethodFixed(t: string)
    ensures TypeMethod(t) == t <==> !Text.Contains(t, "[]") && Text.Free(t, Punctuation)
  {
    if Text.Free(t, Punctuation) {
      var a := Text.Replace(t, "[]", "_array");
      Text.ReplaceKeepsFree(t, "[]", "_array", Punctuation);
      ReplaceSkipsPunctuation(a);
      assert TypeMethod(t) == a;
      ReplaceGrows(t, "[]", "_array");
      if !Text.Contains(t, "[]") {
        Text.ReplaceAbsent(t, "[]", "_array");
      }
    } else {
      var i :| 0 <= i < |t| && t[i] in Punctuation;
      var r := TypeMethod(t);
      assert i >= |r| || r[i] != t[i];
    }
  }

  /** The three character replacements leave a text with no punctuation
      unchanged. */
  lemma ReplaceSkipsPunctuation(a: string)
    requires Text.Free(a, Punctuation)
    ensures Text.Replace(Text.Replace(Text.Replace(a, "<", "_"), ">", ""), ",", "_") == a
  {
    assert Text.Free(a, {'<'}) && Text.Free(a, {'>'}) && Text.Free(a, {','});
    Text.FreeNotContains(a, '<');
    Text.ReplaceAbsent(a, "<", "_");
    Text.FreeNotContains(a, '>');
    Text.ReplaceAbsent(a, ">", "");
    Text.FreeNotContains(a, ',');
    Text.ReplaceAbsent(a, ",", "_");
  }

  /** An array type becomes its element type followed by "_array", as the
      property's documentation has `int[]` become `int_array`, when the
      element type holds no bracket and no generic punctuation. */
  lemma {:induction false} TypeMethodOfArray(t: string)
    requires Text.Free(t, Punctuation + {'['})
    ensures TypeMethod(t + "[]") == t + "_array"
  {
    var pat, rep := "[]", "_array";
    assert Text.Free(t, {pat[0]});
    Text.ReplaceAtEnd(t, pat, rep);
    assert Text.Free(rep, Punctuation) by { Text.FreeOf(rep, Punctuation); }
    Text.FreeConcat(t, rep, Punctuation);
    ReplaceSkipsPunctuation(t + rep);
  }

  /** `FormatType` does no formatting: it keeps the brackets `TypeMethod`
      replaces, so the two differ on every array type. */
  lemma FormatTypeIsDeclared(v: ColumnVars)
    ensures FormatType(v) == v.typeName
    ensures Text.Contains(v.typeName, "[]") ==> FormatType(v) != TypeMethod(v.typeName)
  {
    TypeMethodFixed(v.typeName);
  }
}

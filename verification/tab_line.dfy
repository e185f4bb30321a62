/** Lines built the way the compiler builds them, one piece per source
    column with a tab before every column but the first of the grid. */
module TabLine {
  import Text

  /** A piece of a tab-built line: the source column index and its text. */
  type Piece = (nat, string)

  /** The line the passes build piece by piece: a tab goes before the text
      of every column whose source index is not 0. */
  function Tabbed(pieces: seq<Piece>): string {
    if pieces == [] then ""
    else (if pieces[0].0 > 0 then "\t" else "") + pieces[0].1 + Tabbed(pieces[1..])
  }

  /** The texts of the pieces. */
  function Texts(pieces: seq<Piece>): (r: seq<string>)
    ensures |r| == |pieces|
    ensures forall k :: 0 <= k < |pieces| ==> r[k] == pieces[k].1
  {
    seq(|pieces|, k requires 0 <= k < |pieces| => pieces[k].1)
  }

  /** The tab a line starts with when its first piece is not column 0. */
  function Lead(p: seq<Piece>): string {
    if p != [] && p[0].0 > 0 then "\t" else ""
  }

  /** When only the first piece may come from column 0 (as with pieces in
      increasing column order), the line is the tab-join of the texts,
      behind a tab when the first piece is not column 0 either. */
  lemma {:induction false} TabbedIsJoin(p: seq<Piece>)
    requires forall k :: 1 <= k < |p| ==> p[k].0 > 0
    ensures Tabbed(p) == Lead(p) + Text.Join(Texts(p), "\t")
    decreases |p|
  {
    if p != [] {
      var q := p[1..];
      assert forall k :: 1 <= k < |q| ==> q[k] == p[k + 1];
      TabbedIsJoin(q);
      var ts, tq := Texts(p), Texts(q);
      assert tq == ts[1..];
      assert Tabbed(p) == Lead(p) + p[0].1 + Tabbed(q);
      if |p| == 1 {
        assert Text.Join(ts, "\t") == p[0].1;
      } else {
        assert Lead(q) == "\t";
        JoinStep(Lead(p), p[0].1, Text.Join(tq, "\t"));
      }
    }
  }

  lemma JoinStep(lead: string, head: string, rest: string)
    ensures lead + head + ("\t" + rest) == lead + (head + "\t" + rest)
  {
  }

  /** Texts free of some characters build a line free of them, as long as
      the tab is not among them. */
  lemma {:induction false} FreeTabbed(p: seq<Piece>, cs: set<char>)
    requires '\t' !in cs
    requires forall k :: 0 <= k < |p| ==> Text.Free(p[k].1, cs)
    ensures Text.Free(Tabbed(p), cs)
    decreases |p|
  {
    if p != [] {
      FreeTabbed(p[1..], cs);
      var tab := if p[0].0 > 0 then "\t" else "";
      Text.FreeConcat(tab, p[0].1, cs);
      Text.FreeConcat(tab + p[0].1, Tabbed(p[1..]), cs);
    }
  }

}

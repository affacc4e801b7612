/**
 * The row loop of `fetch_and_parse_colors`, with the parsed HTML document
 * given as its rows, each row the texts of its `<td>` cells.
 */
module ColorExtraction {
  import opened StripText
  import opened SplitText

  /** `[piece.strip() for piece in pieces]`. */
  function StripAll(pieces: seq<string>): (r: seq<string>)
    ensures |r| == |pieces|
  {
    seq(|pieces|, i requires 0 <= i < |pieces| => Strip(pieces[i]))
  }

  /**
   * The colours one row contributes: none when it has fewer than two cells
   * or its second cell is blank; otherwise the stripped second cell split on
   * commas, each piece stripped.
   */
  function RowTokens(cells: seq<string>): seq<string>
  {
    if |cells| <= 1 then []
    else
      var text := Strip(cells[1]);
      if text == [] then [] else StripAll(Split(text, ','))
  }

  /**
   * A row with at most one cell, or with a blank second cell, contributes
   * nothing; otherwise it contributes one colour more than its second cell
   * has commas, empty pieces included.
   */
  lemma RowTokensCount(cells: seq<string>)
    ensures |cells| <= 1 ==> RowTokens(cells) == []
    ensures |cells| > 1 && Strip(cells[1]) == [] ==> RowTokens(cells) == []
    ensures |cells| > 1 && Strip(cells[1]) != [] ==> |RowTokens(cells)| == multiset(Strip(cells[1]))[','] + 1
  {
    if |cells| > 1 {
      SplitSpec(Strip(cells[1]), ',');
    }
  }

  /** Every colour of a row is comma-free and has no surrounding whitespace. */
  lemma RowTokensClean(cells: seq<string>)
    ensures forall t :: t in RowTokens(cells) ==> ',' !in t && Strip(t) == t
  {
    if |cells| > 1 && Strip(cells[1]) != [] {
      var pieces := Split(Strip(cells[1]), ',');
      SplitSpec(Strip(cells[1]), ',');
      var tokens := RowTokens(cells);
      forall i | 0 <= i < |tokens|
        ensures ',' !in tokens[i] && Strip(tokens[i]) == tokens[i]
      {
        StripKeepsOut(pieces[i], ',');
        StripIdempotent(pieces[i]);
      }
    }
  }

  /**
   * The tokens of a row with a non-blank second cell are, in order, the
   * stripped comma-free fields whose comma-join is that cell's stripped text.
   */
  lemma RowTokensAreStrippedFields(cells: seq<string>)
    requires |cells| > 1 && Strip(cells[1]) != []
    ensures exists fields ::
              && Join(fields, ',') == Strip(cells[1])
              && (forall i :: 0 <= i < |fields| ==> ',' !in fields[i])
              && |fields| == |RowTokens(cells)|
              && (forall i :: 0 <= i < |fields| ==> RowTokens(cells)[i] == Strip(fields[i]))
  {
    var fields := Split(Strip(cells[1]), ',');
    JoinSplit(Strip(cells[1]), ',');
    SplitSpec(Strip(cells[1]), ',');
    assert Join(fields, ',') == Strip(cells[1]);
  }

  /** The concatenation of the rows' contributions, in row order. */
  function Concat(parts: seq<seq<string>>): seq<string>
  {
    if parts == [] then [] else Concat(parts[..|parts| - 1]) + parts[|parts| - 1]
  }

  lemma {:induction false} ConcatAppend(parts1: seq<seq<string>>, parts2: seq<seq<string>>)
    ensures Concat(parts1 + parts2) == Concat(parts1) + Concat(parts2)
    decreases |parts2|
  {
    if parts2 == [] {
      assert parts1 + parts2 == parts1;
    } else {
      var p := parts2[..|parts2| - 1];
      ConcatAppend(parts1, p);
      var all := parts1 + parts2;
      assert all[..|all| - 1] == parts1 + p;
      assert all[|all| - 1] == parts2[|parts2| - 1];
      assert Concat(all) == Concat(parts1 + p) + parts2[|parts2| - 1];
      assert Concat(parts2) == Concat(p) + parts2[|parts2| - 1];
    }
  }

  /** What each row contributes, row by row. */
  function RowContributions(rows: seq<seq<string>>): (parts: seq<seq<string>>)
    ensures |parts| == |rows|
  {
    seq(|rows|, i requires 0 <= i < |rows| => RowTokens(rows[i]))
  }

  lemma RowContributionsAppend(rows1: seq<seq<string>>, rows2: seq<seq<string>>)
    ensures RowContributions(rows1 + rows2) == RowContributions(rows1) + RowContributions(rows2)
  {
    var all, parts := rows1 + rows2, RowContributions(rows1) + RowContributions(rows2);
    forall i | 0 <= i < |all|
      ensures RowContributions(all)[i] == parts[i]
    {
      if i < |rows1| {
        assert all[i] == rows1[i];
      } else {
        assert all[i] == rows2[i - |rows1|];
      }
    }
  }

  /** The colours of all rows, row after row. */
  function AllTokens(rows: seq<seq<string>>): seq<string>
  {
    Concat(RowContributions(rows))
  }

  /** One more row adds its own colours at the end. */
  lemma AllTokensSnoc(rows: seq<seq<string>>, cells: seq<string>)
    ensures AllTokens(rows + [cells]) == AllTokens(rows) + RowTokens(cells)
  {
    var single := RowContributions([cells]);
    RowContributionsAppend(rows, [cells]);
    ConcatAppend(RowContributions(rows), single);
    assert single == [RowTokens(cells)];
    assert single[..0] == [];
  }

  /** No colours are extracted exactly when no row contributes any. */
  lemma {:induction false} AllTokensEmpty(rows: seq<seq<string>>)
    ensures AllTokens(rows) == [] <==> forall k :: 0 <= k < |rows| ==> RowTokens(rows[k]) == []
  {
    if rows != [] {
      var p, last := rows[..|rows| - 1], rows[|rows| - 1];
      AllTokensEmpty(p);
      assert rows == p + [last];
      AllTokensSnoc(p, last);
      if forall k :: 0 <= k < |p| ==> RowTokens(p[k]) == [] {
        forall k | 0 <= k < |rows| - 1
          ensures RowTokens(rows[k]) == []
        {
          assert rows[k] == p[k];
        }
      }
    }
  }

  /** Every extracted colour is comma-free and has no surrounding whitespace. */
  lemma {:induction false} AllTokensClean(rows: seq<seq<string>>)
    ensures forall t :: t in AllTokens(rows) ==> ',' !in t && Strip(t) == t
  {
    if rows != [] {
      var p, last := rows[..|rows| - 1], rows[|rows| - 1];
      AllTokensClean(p);
      RowTokensClean(last);
      assert rows == p + [last];
      AllTokensSnoc(p, last);
    }
  }

  /** Rows contribute independently: the colours of a document split in two are the colours of each part. */
  lemma AllTokensAppend(rows1: seq<seq<string>>, rows2: seq<seq<string>>)
    ensures AllTokens(rows1 + rows2) == AllTokens(rows1) + AllTokens(rows2)
  {
    RowContributionsAppend(rows1, rows2);
    ConcatAppend(RowContributions(rows1), RowContributions(rows2));
  }

  /** A row with at most one cell leaves the colours unchanged, wherever it stands. */
  lemma ShortRowContributesNothing(before: seq<seq<string>>, cells: seq<string>, after: seq<seq<string>>)
    requires |cells| <= 1
    ensures AllTokens(before + [cells] + after) == AllTokens(before + after)
  {
    AllTokensAppend(before + [cells], after);
    AllTokensSnoc(before, cells);
    AllTokensAppend(before, after);
    RowTokensCount(cells);
  }

  /** The row loop: each row's colours are appended to the list in place. */
  method ExtractColors(rows: seq<seq<string>>) returns (colors: seq<string>)
    ensures colors == AllTokens(rows)
    ensures forall t :: t in colors ==> ',' !in t && Strip(t) == t
  {
    colors := [];
    for k := 0 to |rows|
      invariant colors == AllTokens(rows[..k])
    {
      var cells := rows[k];
      if |cells| > 1 {
        var text := Strip(cells[1]);
        if text != [] {
          colors := colors + StripAll(Split(text, ','));
        }
      }
      assert rows[..k + 1] == rows[..k] + [cells];
      AllTokensSnoc(rows[..k], cells);
    }
    assert rows[..|rows|] == rows;
    AllTokensClean(rows);
  }
}

/**
  Output projection of the reconciled forecasts (src/inference.py): keep the
  rows of the bottom-level series named by the tag 'total/shop_id/item_id',
  then split each composite `unique_id` on "/" back into one column per
  hierarchy level and drop `unique_id`.
 */
module Inference {
  import opened Seqs
  import opened Frames

  /** The tag of the bottom level of the hierarchy total / shop_id / item_id. */
  const BottomTag: string := "total/shop_id/item_id"

  /** The column that holds the composite series key. */
  const IdColumn: string := "unique_id"

  /** The separator between the key parts of a composite id. */
  const Separator: char := '/'

  /** The hierarchy columns the output is split into. */
  const OutputLevels: seq<string> := ["total", "shop_id", "item_id"]

  // ---------------------------------------------------------------------------
  // Splitting and joining composite ids
  // ---------------------------------------------------------------------------

  /** `s.split(sep)` with an explicit separator: empty pieces are kept, and there is always at least one piece. */
  function Split(s: string, sep: char): (parts: seq<string>)
    ensures |parts| >= 1
    ensures forall p :: p in parts ==> sep !in p
    decreases |s|
  {
    if s == [] then [""]
    else
      var rest := Split(s[1..], sep);
      if s[0] == sep then [""] + rest
      else
        assert forall p :: p in rest[1..] ==> p in rest;
        [[s[0]] + rest[0]] + rest[1..]
  }

  /** `sep.join(parts)`. */
  function Join(parts: seq<string>, sep: char): string
  {
    if parts == [] then ""
    else if |parts| == 1 then parts[0]
    else parts[0] + [sep] + Join(parts[1..], sep)
  }

  /** Joining the pieces of a split restores the original string, for every string. */
  lemma {:induction false} JoinSplit(s: string, sep: char)
    ensures Join(Split(s, sep), sep) == s
    decreases |s|
  {
    if s != [] {
      var rest := Split(s[1..], sep);
      JoinSplit(s[1..], sep);
      if s[0] == sep {
        assert Split(s, sep) == [""] + rest;
        assert s == [sep] + s[1..];
      } else {
        assert Split(s, sep) == [[s[0]] + rest[0]] + rest[1..];
        JoinExtendFirst(s[0], rest, sep);
        assert s == [s[0]] + s[1..];
      }
    }
  }

  /** Prefixing the first piece with a character prefixes the join with it. */
  lemma JoinExtendFirst(c: char, parts: seq<string>, sep: char)
    requires |parts| >= 1
    ensures Join([[c] + parts[0]] + parts[1..], sep) == [c] + Join(parts, sep)
  {
    var ext := [[c] + parts[0]] + parts[1..];
    assert ext[0] == [c] + parts[0] && ext[1..] == parts[1..];
    if |parts| > 1 {
      assert Join(ext, sep) == ([c] + parts[0]) + [sep] + Join(parts[1..], sep);
    }
  }

  /** A piece free of the separator, followed by the separator, splits off as one piece. */
  lemma {:induction false} SplitAfterPiece(p: string, sep: char, t: string)
    requires sep !in p
    ensures Split(p + [sep] + t, sep) == [p] + Split(t, sep)
    decreases |p|
  {
    if p == [] {
      assert [] + [sep] + t == [sep] + t;
      assert ([sep] + t)[1..] == t;
    } else {
      var s := p + [sep] + t;
      assert s[1..] == p[1..] + [sep] + t;
      SplitAfterPiece(p[1..], sep, t);
      assert [p[0]] + p[1..] == p;
    }
  }

  /** A string free of the separator splits into itself. */
  lemma {:induction false} SplitWhole(p: string, sep: char)
    requires sep !in p
    ensures Split(p, sep) == [p]
    decreases |p|
  {
    if p != [] {
      SplitWhole(p[1..], sep);
      assert [p[0]] + p[1..] == p;
    }
  }

  /** Splitting a join of separator-free pieces gives back the pieces. */
  lemma {:induction false} SplitJoin(parts: seq<string>, sep: char)
    requires |parts| >= 1
    requires forall p :: p in parts ==> sep !in p
    ensures Split(Join(parts, sep), sep) == parts
    decreases |parts|
  {
    if |parts| == 1 {
      SplitWhole(parts[0], sep);
    } else {
      assert parts[0] in parts;
      assert forall p :: p in parts[1..] ==> p in parts;
      SplitJoin(parts[1..], sep);
      SplitAfterPiece(parts[0], sep, Join(parts[1..], sep));
    }
  }

  // ---------------------------------------------------------------------------
  // Filtering the reconciled table to the bottom level
  // ---------------------------------------------------------------------------

  /** The row's id is a text listed in `ids` (`d["unique_id"].isin(ids)`). */
  predicate Listed(row: Row, ids: seq<string>) {
    IdColumn in row && row[IdColumn].Text? && row[IdColumn].s in ids
  }

  /**
    `filtra_series_originales`: the rows whose id is listed under the bottom
    tag. Looking up a missing `unique_id` column or a missing tag fails.
   */
  function FilterOriginalSeries(df: Frame, tags: map<string, seq<string>>): (r: Result<seq<Row>>)
    reads df
    requires df.Valid()
    ensures IdColumn !in df.columns ==> r == Err(MissingColumn(IdColumn))
    ensures IdColumn in df.columns && BottomTag !in tags ==> r == Err(MissingTag(BottomTag))
    ensures r.Ok? <==> IdColumn in df.columns && BottomTag in tags
    ensures r.Ok? ==> forall x :: x in r.value <==> x in df.rows && Listed(x, tags[BottomTag])
    ensures r.Ok? ==> forall i :: 0 <= i < |r.value| ==> Listed(r.value[i], tags[BottomTag])
  {
    if IdColumn !in df.columns then Err(MissingColumn(IdColumn))
    else if BottomTag !in tags then Err(MissingTag(BottomTag))
    else Ok(Filter(df.rows, (x: Row) => Listed(x, tags[BottomTag])))
  }

  /** The kept rows are unchanged, keep their original order and multiplicity, and no unlisted row is kept. */
  lemma FilterOriginalSeriesKeepsRows(df: Frame, tags: map<string, seq<string>>)
    requires df.Valid()
    requires FilterOriginalSeries(df, tags).Ok?
    ensures var r := FilterOriginalSeries(df, tags).value;
      && Subsequence(r, df.rows)
      && forall x :: multiset(r)[x] == if Listed(x, tags[BottomTag]) then multiset(df.rows)[x] else 0
  {
    FilterKeepsOrder(df.rows, (x: Row) => Listed(x, tags[BottomTag]));
    FilterCounts(df.rows, (x: Row) => Listed(x, tags[BottomTag]));
  }

  /** Filtering a frame that holds the filter's own output changes nothing. */
  lemma FilterOriginalSeriesIdempotent(df: Frame, again: Frame, tags: map<string, seq<string>>)
    requires df.Valid() && again.Valid()
    requires FilterOriginalSeries(df, tags).Ok?
    requires again.columns == df.columns && again.rows == FilterOriginalSeries(df, tags).value
    ensures FilterOriginalSeries(again, tags) == FilterOriginalSeries(df, tags)
  {
    FilterIdempotent(df.rows, (x: Row) => Listed(x, tags[BottomTag]));
  }

  // ---------------------------------------------------------------------------
  // Splitting `unique_id` into the hierarchy columns
  // ---------------------------------------------------------------------------

  /** All ids are text (the `.str` accessor applies). */
  predicate TextIds(rows: seq<Row>) {
    forall i :: 0 <= i < |rows| ==> IdColumn in rows[i] && rows[i][IdColumn].Text?
  }

  /** The number of columns `str.split('/', expand=True)` produces: the most pieces of any id (0 for no rows). */
  function SplitWidth(rows: seq<Row>): (w: nat)
    requires TextIds(rows)
    ensures forall i :: 0 <= i < |rows| ==> |Split(rows[i][IdColumn].s, Separator)| <= w
    ensures rows != [] ==> exists i :: 0 <= i < |rows| && |Split(rows[i][IdColumn].s, Separator)| == w
  {
    if rows == [] then 0
    else
      var w := SplitWidth(rows[1..]);
      assert forall i :: 1 <= i < |rows| ==> rows[1..][i - 1] == rows[i];
      var here := |Split(rows[0][IdColumn].s, Separator)|;
      if here >= w then here else w
  }

  /** One row of the expanded split: piece k under column k, missing where the id has fewer pieces. */
  function SplitCells(id: string, width: nat): (cells: seq<Cell>)
    ensures |cells| == width
    ensures forall k :: 0 <= k < width && k < |Split(id, Separator)| ==> cells[k] == Text(Split(id, Separator)[k])
    ensures forall k :: |Split(id, Separator)| <= k < width ==> cells[k] == Missing
    ensures forall k :: 0 <= k < width && cells[k].Text? ==> Separator !in cells[k].s
    ensures width == |Split(id, Separator)| ==> Join(CellTexts(cells), Separator) == id
  {
    var parts := Split(id, Separator);
    var cells := seq(width, k requires 0 <= k < width => if k < |parts| then Text(parts[k]) else Missing);
    JoinSplit(id, Separator);
    assert width == |parts| ==> CellTexts(cells) == parts;
    cells
  }

  /** The text of each cell, with the empty string for a cell that is not text. */
  function CellTexts(cells: seq<Cell>): seq<string> {
    seq(|cells|, k requires 0 <= k < |cells| => if cells[k].Text? then cells[k].s else "")
  }

  /** The text under each hierarchy column of a row, with the empty string where there is none. */
  function LevelTexts(row: Row, levels: seq<string>): seq<string> {
    seq(|levels|, k requires 0 <= k < |levels| =>
      if levels[k] in row && row[levels[k]].Text? then row[levels[k]].s else "")
  }

  /** The hierarchy columns of a row joined back with "/" (text cells only). */
  function JoinColumns(row: Row, levels: seq<string>): string {
    Join(LevelTexts(row, levels), Separator)
  }

  /** When an id has exactly one piece per level, joining the new columns with "/" gives the id back. */
  lemma SplitColumnsRoundTrip(id: string, levels: seq<string>)
    requires Distinct(levels)
    requires |Split(id, Separator)| == |levels|
    ensures var row := Assign(levels, SplitCells(id, |levels|));
      && (forall k :: 0 <= k < |levels| ==> row[levels[k]] == Text(Split(id, Separator)[k]))
      && JoinColumns(row, levels) == id
  {
    var row := Assign(levels, SplitCells(id, |levels|));
    var parts := Split(id, Separator);
    assert LevelTexts(row, levels) == parts;
    JoinSplit(id, Separator);
  }

  /** When the id's pieces are free of "/", splitting the joined columns gives back exactly those pieces. */
  lemma JoinedColumnsSplitBack(row: Row, levels: seq<string>)
    requires |levels| >= 1
    requires forall k :: 0 <= k < |levels| ==> levels[k] in row && row[levels[k]].Text? && Separator !in row[levels[k]].s
    ensures |Split(JoinColumns(row, levels), Separator)| == |levels|
    ensures forall k :: 0 <= k < |levels| ==> Split(JoinColumns(row, levels), Separator)[k] == row[levels[k]].s
  {
    SplitJoin(LevelTexts(row, levels), Separator);
  }

  /**
    `formatea_series_originales`: assign the pieces of each split id to the
    level columns of the caller's frame, then drop `unique_id`. The assignment
    fails, and nothing changes, when the widest split does not produce one
    column per level.
   */
  method FormatOriginalSeries(df: Frame, levels: seq<string>) returns (r: Result<()>)
    requires df.Valid()
    requires Distinct(levels) && IdColumn !in levels
    modifies df
    ensures df.Valid()
    ensures IdColumn !in old(df.columns) ==> r == Err(MissingColumn(IdColumn))
    ensures IdColumn in old(df.columns) && !TextIds(old(df.rows)) ==> r == Err(NonTextId)
    ensures IdColumn in old(df.columns) && TextIds(old(df.rows)) && SplitWidth(old(df.rows)) != |levels| ==>
      r == Err(ColumnCountMismatch(|levels|, SplitWidth(old(df.rows))))
    ensures r.Ok? <==> IdColumn in old(df.columns) && TextIds(old(df.rows)) && SplitWidth(old(df.rows)) == |levels|
    ensures r.Err? ==> df.columns == old(df.columns) && df.rows == old(df.rows)
    ensures r.Ok? ==> df.columns == Without(WithColumns(old(df.columns), levels), IdColumn)
    ensures r.Ok? ==> |df.rows| == |old(df.rows)|
    ensures r.Ok? ==> forall i :: 0 <= i < |df.rows| ==>
      df.rows[i] == (old(df.rows)[i] + Assign(levels, SplitCells(old(df.rows)[i][IdColumn].s, |levels|))) - {IdColumn}
  {
    if IdColumn !in df.columns {
      return Err(MissingColumn(IdColumn));
    }
    if !TextIds(df.rows) {
      return Err(NonTextId);
    }
    var width := SplitWidth(df.rows);
    if width != |levels| {
      return Err(ColumnCountMismatch(|levels|, width));
    }
    var before: seq<Row> := df.rows;
    var block := seq(|before|, i requires 0 <= i < |before| => SplitCells(before[i][IdColumn].s, width));
    df.SetColumns(levels, block);
    var _ := df.DropColumn(IdColumn);
    return Ok(());
  }

  /** Every output row keeps its other columns, and its level columns join back to its former id when the split was exact. */
  lemma FormattedRowFaithful(previous: Row, levels: seq<string>)
    requires Distinct(levels) && IdColumn !in levels
    requires IdColumn in previous && previous[IdColumn].Text?
    requires |Split(previous[IdColumn].s, Separator)| == |levels|
    ensures var row := (previous + Assign(levels, SplitCells(previous[IdColumn].s, |levels|))) - {IdColumn};
      && IdColumn !in row
      && (forall c :: c in previous && c != IdColumn && c !in levels ==> c in row && row[c] == previous[c])
      && JoinColumns(row, levels) == previous[IdColumn].s
  {
    var id := previous[IdColumn].s;
    var written := Assign(levels, SplitCells(id, |levels|));
    var row := (previous + written) - {IdColumn};
    SplitColumnsRoundTrip(id, levels);
    JoinColumnsAgree(row, written, levels);
  }

  lemma JoinColumnsAgree(a: Row, b: Row, levels: seq<string>)
    requires forall k :: 0 <= k < |levels| ==> levels[k] in a && levels[k] in b && a[levels[k]] == b[levels[k]]
    ensures JoinColumns(a, levels) == JoinColumns(b, levels)
  {
    assert LevelTexts(a, levels) == LevelTexts(b, levels);
  }

  /** The cells total, shop_id and item_id that one bottom-level id expands to. */
  function BottomCells(id: string): Row {
    Assign(OutputLevels, SplitCells(id, |OutputLevels|))
  }

  /**
    The output stage of `genera_batch_pronostico` without writing the file:
    filter the reconciled frame to the bottom level, then split its ids into
    the columns total, shop_id and item_id.
   */
  method ProjectOutput(reconciled: Frame, tags: map<string, seq<string>>) returns (r: Result<Frame>)
    requires reconciled.Valid()
    ensures FilterOriginalSeries(reconciled, tags).Err? ==> r == Err(FilterOriginalSeries(reconciled, tags).error)
    ensures FilterOriginalSeries(reconciled, tags).Ok? ==> var kept := FilterOriginalSeries(reconciled, tags).value;
      && (r.Ok? <==> TextIds(kept) && SplitWidth(kept) == |OutputLevels|)
      && (!TextIds(kept) ==> r == Err(NonTextId))
      && (TextIds(kept) && SplitWidth(kept) != |OutputLevels| ==>
            r == Err(ColumnCountMismatch(|OutputLevels|, SplitWidth(kept))))
    ensures r.Ok? ==> fresh(r.value) && r.value.Valid()
    ensures r.Ok? ==> r.value.columns == Without(WithColumns(reconciled.columns, OutputLevels), IdColumn)
    ensures r.Ok? ==> var kept := FilterOriginalSeries(reconciled, tags).value;
      && TextIds(kept)
      && |r.value.rows| == |kept|
      && forall i :: 0 <= i < |kept| ==>
        r.value.rows[i] == (kept[i] + BottomCells(kept[i][IdColumn].s)) - {IdColumn}
  {
    var filtered := FilterOriginalSeries(reconciled, tags);
    if filtered.Err? {
      return Err(filtered.error);
    }
    forall i | 0 <= i < |filtered.value| ensures filtered.value[i].Keys == Elements(reconciled.columns) {
      assert filtered.value[i] in reconciled.rows;
    }
    var kept := filtered.value;
    var out := new Frame(reconciled.columns, kept);
    assert IdColumn in out.columns;
    assert Distinct(OutputLevels) && IdColumn !in OutputLevels;
    var formatted := FormatOriginalSeries(out, OutputLevels);
    assert formatted.Ok? <==> TextIds(kept) && SplitWidth(kept) == |OutputLevels|;
    if formatted.Err? {
      return Err(formatted.error);
    }
    return Ok(out);
  }
}

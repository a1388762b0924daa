/** Several header rows made into one: the overlapping right-to-left splice in one array. */
module Headers {
  import opened Csv
  import opened CsvFacts
  import opened Memory
  import opened Wrappers

  const SPACE: byte := 32

  /** How the text of one cell is kept: nothing, or the text and one space. */
  function Piece(text: bytes): bytes {
    if text == [] then [] else text + [SPACE]
  }

  /** The first `n` parts back to back. */
  function Flat(parts: seq<bytes>, n: nat): bytes
    requires n <= |parts|
  {
    if n == 0 then [] else Flat(parts, n - 1) + parts[n - 1]
  }

  /** The parts from `n` on back to back. */
  function After(parts: seq<bytes>, n: nat): bytes
    requires n <= |parts|
    decreases |parts| - n
  {
    if n == |parts| then [] else parts[n] + After(parts, n + 1)
  }

  lemma {:induction false} AfterAll(parts: seq<bytes>, n: nat)
    requires n <= |parts|
    ensures Flat(parts, n) + After(parts, n) == Flat(parts, |parts|)
    decreases |parts| - n
  {
    if n < |parts| {
      AfterAll(parts, n + 1);
      Assoc(Flat(parts, n), parts[n], After(parts, n + 1));
    } else {
      assert Flat(parts, n) + [] == Flat(parts, n);
    }
  }

  /** The parts once a row has been added; columns past the old width were empty. */
  function Spliced(parts: seq<bytes>, row: seq<bytes>): (r: seq<bytes>)
    ensures |r| == |row|
  {
    seq(|row|, i requires 0 <= i < |row| => Old(parts, i) + Piece(row[i]))
  }

  function Old(parts: seq<bytes>, i: nat): bytes {
    if i < |parts| then parts[i] else []
  }

  /** The cells padded with empty ones, or cut, to `n` of them. */
  function Fit(parts: seq<bytes>, n: nat): (r: seq<bytes>)
    ensures |r| == n
  {
    seq(n, i requires 0 <= i < n => Old(parts, i))
  }

  /** The bytes a row adds. */
  function RowSize(row: seq<bytes>, n: nat): nat
    requires n <= |row|
  {
    if n == 0 then 0 else RowSize(row, n - 1) + |Piece(row[n - 1])|
  }

  lemma {:induction false} SplicedSize(parts: seq<bytes>, row: seq<bytes>, n: nat)
    requires |parts| <= |row| && n <= |row|
    ensures |Flat(Spliced(parts, row), n)| == |Flat(Fit(parts, |row|), n)| + RowSize(row, n)
  {
    hide Spliced, Fit, Old, Piece;
    if n > 0 {
      SplicedSize(parts, row, n - 1);
      SplicedAt(parts, row, n - 1);
    }
  }

  lemma SplicedAt(parts: seq<bytes>, row: seq<bytes>, i: nat)
    requires i < |row|
    ensures Spliced(parts, row)[i] == Fit(parts, |row|)[i] + Piece(row[i])
  {
  }

  lemma FlatStep(parts: seq<bytes>, i: nat)
    requires i < |parts|
    ensures Flat(parts, i + 1) == Flat(parts, i) + parts[i]
  {
  }

  lemma {:induction false} PaddedFlat(parts: seq<bytes>, m: nat, n: nat)
    requires |parts| <= n <= m
    ensures Flat(Fit(parts, m), n) == Flat(parts, |parts|)
  {
    if n > |parts| {
      PaddedFlat(parts, m, n - 1);
      assert Fit(parts, m)[n - 1] == [];
    } else {
      FlatSame(Fit(parts, m), parts, n);
    }
  }

  lemma {:induction false} FlatSame(parts: seq<bytes>, parts': seq<bytes>, n: nat)
    requires n <= |parts| && n <= |parts'| && forall i :: 0 <= i < n ==> parts[i] == parts'[i]
    ensures Flat(parts, n) == Flat(parts', n)
  {
    if n > 0 {
      FlatSame(parts, parts', n - 1);
    }
  }

  // ---------------------------------------------------------------------------------------
  // The splice, step by step
  // ---------------------------------------------------------------------------------------

  /** Parts from `i` on are in their final place; those before are all still where they were. */
  ghost predicate Splicing(b: bytes, before: seq<bytes>, after: seq<bytes>, i: nat) {
    && i <= |before| == |after|
    && |Flat(before, i)| <= |Flat(after, i)| <= |b|
    && b[..|Flat(before, i)|] == Flat(before, i)
    && b[|Flat(after, i)|..] == After(after, i)
  }

  /** Copy the text of a cell and a space after it. */
  method PutPiece(a: array<byte>, dst: nat, text: bytes)
    requires dst + |text| < a.Length
    modifies a
    ensures a[..] == Overlaid(old(a[..]), dst, text + [SPACE])
  {
    forall k | 0 <= k < |text| {
      a[dst + k] := text[k];
    }
    a[dst + |text|] := SPACE;
  }

  /** Copying the new cell in front of what is in place leaves the parts not moved yet alone. */
  lemma PutKeeps(b: bytes, dst: nat, text: bytes, n: nat)
    requires n <= dst && dst + |text| <= |b|
    ensures Overlaid(b, dst, text)[..n] == b[..n]
    ensures Overlaid(b, dst, text)[dst..] == text + b[dst + |text|..]
  {
  }

  /** Moving a part up, over itself if need be, leaves the parts before it alone. */
  lemma MoveKeeps(b: bytes, dst: nat, src: nat, n: nat)
    requires src <= dst && dst + n <= |b|
    ensures Moved(b, dst, src, n)[..src] == b[..src]
    ensures Moved(b, dst, src, n)[dst..] == b[src..src + n] + b[dst + n..]
  {
  }

  lemma SpliceStep(b: bytes, before: seq<bytes>, after: seq<bytes>, i: nat, text: bytes)
    requires i < |before| == |after| && Splicing(b, before, after, i + 1)
    requires after[i] == before[i] + Piece(text) && |Flat(before, i)| <= |Flat(after, i)|
    ensures var oldEnd, newEnd, n := |Flat(before, i + 1)|, |Flat(after, i + 1)|, |before[i]|;
      && var at := newEnd - |Piece(text)|;
      && oldEnd <= at && n <= oldEnd && newEnd <= |b|
      && Splicing(Moved(Overlaid(b, at, Piece(text)), at - n, oldEnd - n, n), before, after, i)
      && |Flat(before, i)| == oldEnd - n && |Flat(after, i)| == at - n
  {
    hide Moved, Overlaid, Piece, Flat, After, Splicing;
    SplicingMeans(b, before, after, i + 1);
    FlatStep(before, i);
    FlatStep(after, i);
    var oldEnd, newEnd, n, piece := |Flat(before, i + 1)|, |Flat(after, i + 1)|, |before[i]|, Piece(text);
    var at := newEnd - |piece|;
    var b1 := Overlaid(b, at, piece);
    PutKeeps(b, at, piece, oldEnd);
    var b2 := Moved(b1, at - n, oldEnd - n, n);
    MoveKeeps(b1, at - n, oldEnd - n, n);
    StepTexts(b, b1, b2, before, after, i, piece, oldEnd, at, n);
    SplicingMeans(b2, before, after, i);
  }

  lemma SplicingMeans(b: bytes, before: seq<bytes>, after: seq<bytes>, i: nat)
    requires i <= |before| == |after|
    ensures Splicing(b, before, after, i) <==>
      && |Flat(before, i)| <= |Flat(after, i)| <= |b|
      && b[..|Flat(before, i)|] == Flat(before, i)
      && b[|Flat(after, i)|..] == After(after, i)
  {
    hide Flat, After;
  }

  lemma StepTexts(b: bytes, b1: bytes, b2: bytes, before: seq<bytes>, after: seq<bytes>, i: nat, piece: bytes,
                  oldEnd: nat, at: nat, n: nat)
    requires i < |before| == |after| && after[i] == before[i] + piece && n == |before[i]| <= oldEnd <= at
    requires at + |piece| <= |b|
    requires |b| == |b1| == |b2|
    requires oldEnd == |Flat(before, i + 1)| && at + |piece| == |Flat(after, i + 1)|
    requires b[..oldEnd] == Flat(before, i + 1) && b[at + |piece|..] == After(after, i + 1)
    requires b1[..oldEnd] == b[..oldEnd] && b1[at..] == piece + b[at + |piece|..]
    requires b2[..oldEnd - n] == b1[..oldEnd - n] && b2[at - n..] == b1[oldEnd - n..oldEnd] + b1[at..]
    ensures b2[..oldEnd - n] == Flat(before, i) && b2[at - n..] == After(after, i)
    ensures |Flat(before, i)| == oldEnd - n && |Flat(after, i)| == at - n
  {
    hide Flat, After;
    FlatStep(before, i);
    FlatStep(after, i);
    AfterStep(after, i);
    Assoc(before[i], piece, After(after, i + 1));
    SplitEnd(b[..oldEnd], Flat(before, i), before[i]);
    assert b1[..oldEnd - n] == b1[..oldEnd][..oldEnd - n];
    assert b1[oldEnd - n..oldEnd] == b1[..oldEnd][oldEnd - n..];
  }

  lemma AfterStep(parts: seq<bytes>, i: nat)
    requires i < |parts|
    ensures After(parts, i) == parts[i] + After(parts, i + 1)
  {
  }

  lemma SplitEnd(s: bytes, front: bytes, end: bytes)
    requires s == front + end
    ensures s[..|s| - |end|] == front && s[|s| - |end|..] == end
  {
  }

  lemma NothingToDo(b: bytes, dst: nat, src: nat)
    requires dst <= |b| && src <= |b|
    ensures Overlaid(b, dst, []) == b && Moved(b, dst, src, 0) == b
  {
  }

  lemma {:induction false} FlatGrows(parts: seq<bytes>, row: seq<bytes>, n: nat)
    requires |parts| <= |row| && n <= |row|
    ensures |Flat(Fit(parts, |row|), n)| <= |Flat(Spliced(parts, row), n)|
  {
    SplicedSize(parts, row, n);
  }

  /** Nothing is in its final place yet. */
  lemma SpliceStart(b: bytes, parts: seq<bytes>, row: seq<bytes>, used: nat)
    requires |parts| <= |row| && used == |Flat(parts, |parts|)|
    requires |b| == used + RowSize(row, |row|) && Part(b, 0, used) == Flat(parts, |parts|)
    ensures Splicing(b, Fit(parts, |row|), Spliced(parts, row), |row|)
    ensures |Flat(Fit(parts, |row|), |row|)| == used && |Flat(Spliced(parts, row), |row|)| == |b|
  {
    hide Flat, Spliced, Fit, RowSize;
    PaddedFlat(parts, |row|, |row|);
    SplicedSize(parts, row, |row|);
    AfterEnd(Spliced(parts, row));
  }

  lemma AfterEnd(parts: seq<bytes>)
    ensures After(parts, |parts|) == []
  {
  }

  lemma SpliceEnd(b: bytes, before: seq<bytes>, after: seq<bytes>)
    requires Splicing(b, before, after, 0)
    ensures b == Flat(after, |after|)
  {
    AfterAll(after, 0);
  }

  /** Cells from `i` on have their new lengths, those before their old ones. */
  ghost predicate Lengths(lengths: seq<nat>, parts: seq<bytes>, row: seq<bytes>, i: nat) {
    forall j :: 0 <= j < |lengths| ==>
      lengths[j] == |Old(parts, j)| + if i <= j < |row| then |Piece(row[j])| else 0
  }

  /** One cell, from the right: put its text in front of what is done, then the old text before it. */
  method SpliceCell(a: array<byte>, lengths: array<nat>, row: seq<bytes>, i: nat, oldEnd: nat, newEnd: nat,
                    ghost parts: seq<bytes>)
    returns (oldEnd': nat, newEnd': nat)
    requires |parts| <= |row| <= lengths.Length && 0 < i <= |row|
    requires Splicing(a[..], Fit(parts, |row|), Spliced(parts, row), i) && Lengths(lengths[..], parts, row, i)
    requires oldEnd == |Flat(Fit(parts, |row|), i)| && newEnd == |Flat(Spliced(parts, row), i)|
    modifies a, lengths
    ensures Splicing(a[..], Fit(parts, |row|), Spliced(parts, row), i - 1) && Lengths(lengths[..], parts, row, i - 1)
    ensures oldEnd' == |Flat(Fit(parts, |row|), i - 1)| && newEnd' == |Flat(Spliced(parts, row), i - 1)|
  {
    hide Flat, After, Fit, Spliced, Splicing, Overlaid, Moved, Lengths, Piece, Old;
    ghost var was, oldParts, newParts := a[..], Fit(parts, |row|), Spliced(parts, row);
    var text := row[i - 1];
    CellFacts(lengths[..], parts, row, i);
    FlatGrows(parts, row, i - 1);
    SpliceStep(was, oldParts, newParts, i - 1, text);
    oldEnd', newEnd' := oldEnd, newEnd;
    if |text| > 0 {
      newEnd' := newEnd' - |text| - 1;
      PutPiece(a, newEnd', text);
    }
    NothingToDo(was, newEnd', newEnd');
    var oldLength := lengths[i - 1];
    NothingToDo(a[..], newEnd', oldEnd');
    if oldLength > 0 {
      oldEnd' := oldEnd' - oldLength;
      newEnd' := newEnd' - oldLength;
      MemMove(a, newEnd', oldEnd', oldLength);
    }
    if |text| > 0 {
      lengths[i - 1] := lengths[i - 1] + |text| + 1;
    }
    LengthsStep(old(lengths[..]), lengths[..], parts, row, i);
  }

  lemma CellFacts(lengths: seq<nat>, parts: seq<bytes>, row: seq<bytes>, i: nat)
    requires 0 < i <= |row| <= |lengths| && Lengths(lengths, parts, row, i)
    ensures lengths[i - 1] == |Fit(parts, |row|)[i - 1]|
    ensures Spliced(parts, row)[i - 1] == Fit(parts, |row|)[i - 1] + Piece(row[i - 1])
    ensures Piece(row[i - 1]) == if |row[i - 1]| > 0 then row[i - 1] + [SPACE] else []
  {
  }

  lemma LengthsStep(was: seq<nat>, now: seq<nat>, parts: seq<bytes>, row: seq<bytes>, i: nat)
    requires 0 < i <= |row| <= |was| == |now| && Lengths(was, parts, row, i)
    requires now == was[i - 1 := was[i - 1] + |Piece(row[i - 1])|]
    ensures Lengths(now, parts, row, i - 1)
  {
  }

  /** Make room at the end of the old row and splice the new one in, last cell first. */
  method Splice(a: array<byte>, lengths: array<nat>, row: seq<bytes>, used: nat, ghost parts: seq<bytes>)
    requires |parts| <= |row| <= lengths.Length && used == |Flat(parts, |parts|)|
    requires a.Length == used + RowSize(row, |row|) && Part(a[..], 0, used) == Flat(parts, |parts|)
    requires Lengths(lengths[..], parts, row, |row|)
    modifies a, lengths
    ensures a[..] == Flat(Spliced(parts, row), |row|) && Lengths(lengths[..], parts, row, 0)
  {
    hide Flat, After, Fit, Spliced, Splicing, Lengths, RowSize;
    SpliceStart(a[..], parts, row, used);
    var oldEnd, newEnd := used, a.Length;
    var i := |row|;
    while i > 0
      invariant 0 <= i <= |row| && Splicing(a[..], Fit(parts, |row|), Spliced(parts, row), i)
      invariant Lengths(lengths[..], parts, row, i)
      invariant oldEnd == |Flat(Fit(parts, |row|), i)| && newEnd == |Flat(Spliced(parts, row), i)|
    {
      oldEnd, newEnd := SpliceCell(a, lengths, row, i, oldEnd, newEnd, parts);
      i := i - 1;
    }
    SpliceEnd(a[..], Fit(parts, |row|), Spliced(parts, row));
  }

  // ---------------------------------------------------------------------------------------
  // The collated header
  // ---------------------------------------------------------------------------------------

  /** C's `realloc`, from the first `used` bytes on. */
  method Realloc(a: array<byte>, used: nat, size: nat) returns (b: array<byte>)
    requires used <= a.Length && used <= size
    ensures fresh(b) && b.Length == size && Part(b[..], 0, used) == Part(a[..], 0, used)
  {
    b := new byte[size];
    forall k | 0 <= k < used {
      b[k] := a[k];
    }
  }

  method MeasureRow(row: seq<bytes>) returns (size: nat)
    ensures size == RowSize(row, |row|)
  {
    size := 0;
    for i := 0 to |row|
      invariant size == RowSize(row, i)
    {
      if |row[i]| > 0 {
        size := size + |row[i]| + 1;
      }
    }
  }

  /** The header rows read so far, cell by cell, in one array. */
  class CollateHeader {
    var buff: array<byte>
    var used: nat
    const lengths: array<nat>    // of each cell's text with its trailing space
    var columns: nat
    ghost var parts: seq<bytes>  // the texts of which `buff` is made

    ghost predicate Valid()
      reads this, buff, lengths
    {
      && |parts| == columns <= lengths.Length && buff.Length == used && buff[..] == Flat(parts, columns)
      && Lengths(lengths[..], parts, [], 0)
    }

    constructor (maxColumns: nat)
      ensures Valid() && parts == [] && lengths.Length == maxColumns && fresh(buff) && fresh(lengths)
    {
      buff, used, columns, parts := new byte[0], 0, 0, [];
      lengths := new nat[maxColumns](_ => 0);
    }

    /** collate_header_append(): add a row at least as wide as those before. */
    method Append(row: seq<bytes>)
      requires Valid() && columns <= |row| <= lengths.Length
      modifies this, buff, lengths
      ensures Valid() && parts == Spliced(old(parts), row) && (buff == old(buff) || fresh(buff))
    {
      hide Flat, Spliced, Fit, Splicing, Lengths, Piece;
      var thisRowSize := MeasureRow(row);
      LengthsOfNothing(lengths[..], parts, row);
      var newSize := used + thisRowSize;
      if newSize > 0 {
        var newRow := Realloc(buff, used, newSize);
        Splice(newRow, lengths, row, used, parts);
        used, buff := newSize, newRow;
      } else {
        NothingAdded(buff[..], lengths[..], parts, row);
      }
      if |row| > columns {
        columns := |row|;
      }
      LengthsDone(lengths[..], parts, row);
      parts := Spliced(parts, row);
    }
  }

  lemma LengthsOfNothing(lengths: seq<nat>, parts: seq<bytes>, row: seq<bytes>)
    requires Lengths(lengths, parts, [], 0) && |row| <= |lengths|
    ensures Lengths(lengths, parts, row, |row|)
  {
  }

  lemma LengthsDone(lengths: seq<nat>, parts: seq<bytes>, row: seq<bytes>)
    requires Lengths(lengths, parts, row, 0) && |parts| <= |row| <= |lengths|
    ensures Lengths(lengths, Spliced(parts, row), [], 0)
  {
  }

  lemma {:induction false} RowSizeZero(row: seq<bytes>, n: nat, i: nat)
    requires i < n <= |row| && RowSize(row, n) == 0
    ensures Piece(row[i]) == []
  {
    if i < n - 1 {
      RowSizeZero(row, n - 1, i);
    }
  }

  lemma NothingAdded(b: bytes, lengths: seq<nat>, parts: seq<bytes>, row: seq<bytes>)
    requires |parts| <= |row| <= |lengths| && b == Flat(parts, |parts|) && |b| + RowSize(row, |row|) == 0
    requires Lengths(lengths, parts, row, |row|)
    ensures b == Flat(Spliced(parts, row), |row|) && Lengths(lengths, parts, row, 0)
  {
    hide Flat, Spliced, Fit;
    SplicedSize(parts, row, |row|);
    PaddedFlat(parts, |row|, |row|);
    forall i | 0 <= i < |row| ensures Piece(row[i]) == [] {
      RowSizeZero(row, |row|, i);
    }
  }

  // ---------------------------------------------------------------------------------------
  // What the header is
  // ---------------------------------------------------------------------------------------

  /** The cells numbered `i` of the rows, from the top. */
  function Column(rows: seq<seq<bytes>>, i: nat): (r: seq<bytes>)
    ensures |r| == |rows|
  {
    if rows == [] then [] else Column(rows[..|rows| - 1], i) + [Old(rows[|rows| - 1], i)]
  }

  /** The texts that are not empty, joined by one space. */
  function Joined(cells: seq<bytes>): bytes {
    if cells == [] then []
    else
      var front, last := Joined(cells[..|cells| - 1]), cells[|cells| - 1];
      if last == [] then front else if front == [] then last else front + [SPACE] + last
  }

  /** One space goes between texts that are not empty, and nothing else is added. */
  lemma {:induction false} JoinedParts(cells: seq<bytes>, more: seq<bytes>)
    ensures Joined(cells + more) ==
            if Joined(cells) == [] then Joined(more)
            else if Joined(more) == [] then Joined(cells)
            else Joined(cells) + [32] + Joined(more)
  {
    if more == [] {
      assert cells + more == cells;
    } else {
      var front, last := more[..|more| - 1], more[|more| - 1];
      JoinedParts(cells, front);
      assert (cells + more)[..|cells + more| - 1] == cells + front;
      if Joined(cells) != [] && Joined(front) != [] && last != [] {
        Assoc(Joined(cells) + [32], Joined(front), [32] + last);
        Assoc(Joined(front), [32], last);
        Assoc(Joined(cells) + [32] + Joined(front), [32], last);
      }
    }
  }

  lemma JoinedOne(text: bytes)
    ensures Joined([]) == [] && Joined([text]) == text
  {
    assert [text][..0] == [];
  }

  /** The cells of column `i`, one for each row; a row too short has an empty one. */
  lemma {:induction false} ColumnAt(rows: seq<seq<bytes>>, i: nat, k: nat)
    requires k < |rows|
    ensures Column(rows, i)[k] == if i < |rows[k]| then rows[k][i] else []
  {
    if k < |rows| - 1 {
      ColumnAt(rows[..|rows| - 1], i, k);
    }
  }

  /** Each header cell joins the texts above each other, over the width of the first row. */
  ghost predicate IsHeader(header: seq<bytes>, rows: seq<seq<bytes>>) {
    && rows != [] && |header| == |rows[0]|
    && forall i :: 0 <= i < |header| ==> header[i] == Joined(Column(rows, i))
  }

  /** The texts in the array, each with its trailing space, for the rows read so far. */
  ghost predicate Collects(parts: seq<bytes>, rows: seq<seq<bytes>>) {
    && rows != [] && |parts| == |rows[0]|
    && forall i :: 0 <= i < |parts| ==> parts[i] == Piece(Joined(Column(rows, i)))
  }

  lemma ColumnSnoc(rows: seq<seq<bytes>>, row: seq<bytes>, i: nat)
    ensures Column(rows + [row], i) == Column(rows, i) + [Old(row, i)]
  {
    assert (rows + [row])[..|rows|] == rows;
  }

  lemma JoinedSnoc(cells: seq<bytes>, text: bytes)
    ensures Piece(Joined(cells + [text])) == Piece(Joined(cells)) + Piece(text)
  {
    assert (cells + [text])[..|cells|] == cells;
    var front := Joined(cells);
    if text != [] && front != [] {
      assert (front + [SPACE] + text) + [SPACE] == (front + [SPACE]) + (text + [SPACE]);
    }
  }

  lemma CollectsFirst(row: seq<bytes>)
    ensures Collects(Spliced([], row), [row])
  {
    hide Piece, Joined, Column;
    forall i | 0 <= i < |row| ensures Spliced([], row)[i] == Piece(Joined(Column([row], i))) {
      ColumnSnoc([], row, i);
      assert [] + [row] == [row];
      JoinedSnoc([], Old(row, i));
      NoCells(i);
    }
  }

  lemma NoCells(i: nat)
    ensures Column([], i) == [] && Joined([]) == [] && Piece([]) == []
  {
  }

  lemma CollectsNext(parts: seq<bytes>, rows: seq<seq<bytes>>, row: seq<bytes>)
    requires Collects(parts, rows)
    ensures Collects(Spliced(parts, Fit(row, |parts|)), rows + [row])
  {
    hide Piece, Joined, Column;
    forall i | 0 <= i < |parts| ensures Spliced(parts, Fit(row, |parts|))[i] == Piece(Joined(Column(rows + [row], i))) {
      ColumnSnoc(rows, row, i);
      JoinedSnoc(Column(rows, i), Old(row, i));
    }
  }

  // ---------------------------------------------------------------------------------------
  // The row handler while header rows are read
  // ---------------------------------------------------------------------------------------

  class HeaderReader {
    const maxColumns: nat
    var headerSpan: nat                // header rows still to come
    var collateHeader: CollateHeader?
    ghost var rows: seq<seq<bytes>>    // the header rows so far

    ghost function Repr(): set<object>
      reads this, collateHeader
    {
      if collateHeader == null then {this}
      else
        var c: CollateHeader := collateHeader;
        {this, c, c.buff, c.lengths}
    }

    ghost predicate Valid()
      reads this, collateHeader, Repr()
    {
      if collateHeader == null then rows == []
      else
        && collateHeader.Valid() && collateHeader.lengths.Length == maxColumns
        && Collects(collateHeader.parts, rows)
    }

    constructor (maxColumns: nat, headerSpan: nat)
      ensures Valid() && rows == [] && this.headerSpan == headerSpan && this.maxColumns == maxColumns && fresh(Repr())
    {
      this.maxColumns, this.headerSpan, collateHeader, rows := maxColumns, headerSpan, null, [];
    }

    /** collate_header_row(): take one more header row; after the last one there is a header. */
    method CollateHeaderRow(row: seq<bytes>) returns (header: Option<seq<bytes>>)
      requires Valid() && headerSpan > 0 && |row| <= maxColumns
      modifies Repr()
      ensures Valid() && (forall o :: o in Repr() ==> o in old(Repr()) || fresh(o)) && rows == old(rows) + [row]
      ensures headerSpan == old(headerSpan) - 1
      ensures header.Some? <==> headerSpan == 0
      ensures header.Some? ==> IsHeader(header.value, rows)
    {
      hide Collects, Spliced, IsHeader;
      headerSpan := headerSpan - 1;
      if collateHeader == null {
        collateHeader := new CollateHeader(maxColumns);
        collateHeader.Append(row);
        CollectsFirst(row);
        assert rows + [row] == [row];
      } else {
        CollectsNext(collateHeader.parts, rows, row);
        collateHeader.Append(Fit(row, collateHeader.columns));
      }
      rows := rows + [row];
      header := None;
      if headerSpan == 0 {
        var cells := HeaderCells(collateHeader);
        CellsAreHeader(cells, collateHeader.parts, rows);
        header := Some(cells);
      }
    }
  }

  /** A text without its trailing space. */
  function Trimmed(part: bytes): bytes {
    if part == [] then [] else part[..|part| - 1]
  }

  /** Point the row's cells at the texts in the array, without their trailing spaces. */
  method HeaderCells(c: CollateHeader) returns (cells: seq<bytes>)
    requires c.Valid()
    ensures |cells| == |c.parts| && forall i :: 0 <= i < |cells| ==> cells[i] == Trimmed(c.parts[i])
  {
    hide Flat, Lengths, Trimmed, Part;
    ghost var b, parts := c.buff[..], c.parts;
    FlatNothing(parts);
    cells := [];
    var offset, i := 0, 0;
    while i < c.columns
      invariant i <= c.columns == |parts| && |cells| == i && offset == |Flat(parts, i)|
      invariant forall j :: 0 <= j < i ==> cells[j] == Trimmed(parts[j])
    {
      var lenPlus1 := c.lengths[i];
      TextAt(b, c.lengths[..], parts, i);
      cells := cells + [if lenPlus1 > 0 then Part(c.buff[..], offset, lenPlus1 - 1) else []];
      offset := offset + lenPlus1;
      i := i + 1;
    }
  }

  lemma FlatNothing(parts: seq<bytes>)
    ensures Flat(parts, 0) == []
  {
  }

  lemma TextAt(b: bytes, lengths: seq<nat>, parts: seq<bytes>, i: nat)
    requires i < |parts| <= |lengths| && b == Flat(parts, |parts|) && Lengths(lengths, parts, [], 0)
    ensures lengths[i] == |parts[i]| && |Flat(parts, i + 1)| == |Flat(parts, i)| + |parts[i]| <= |b|
    ensures Trimmed(parts[i]) == if lengths[i] > 0 then Part(b, |Flat(parts, i)|, lengths[i] - 1) else []
  {
    AfterAll(parts, i);
    var at := |Flat(parts, i)|;
    assert b[at..at + |parts[i]|] == parts[i];
  }

  lemma CellsAreHeader(cells: seq<bytes>, parts: seq<bytes>, rows: seq<seq<bytes>>)
    requires Collects(parts, rows) && |cells| == |parts|
    requires forall i :: 0 <= i < |cells| ==> cells[i] == Trimmed(parts[i])
    ensures IsHeader(cells, rows)
  {
    hide Joined, Column;
    forall i | 0 <= i < |cells| ensures cells[i] == Joined(Column(rows, i)) {
      assert parts[i] == Piece(Joined(Column(rows, i)));
    }
  }

  /**
   The first `span` rows become one header: each of its cells joins, by one space, the texts
   that are not empty in its column; the first row decides how many there are.
   */
  method ReadHeader(rows: seq<seq<bytes>>, span: nat, maxColumns: nat) returns (header: seq<bytes>)
    requires 0 < span <= |rows| && forall i :: 0 <= i < |rows| ==> |rows[i]| <= maxColumns
    ensures IsHeader(header, rows[..span])
  {
    hide *;
    var reader := new HeaderReader(maxColumns, span);
    var i := 0;
    while true
      invariant i < span && reader.Valid() && fresh(reader.Repr()) && reader.maxColumns == maxColumns
      invariant reader.rows == rows[..i] && reader.headerSpan == span - i
      decreases span - i
    {
      var h := reader.CollateHeaderRow(rows[i]);
      assert rows[..i] + [rows[i]] == rows[..i + 1];
      i := i + 1;
      if h.Some? {
        return h.value;
      }
    }
  }
}

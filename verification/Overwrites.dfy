/** The forward-only cursor over cell overwrites, against a look-up in their table. */
module Overwrites {
  import opened Csv
  import opened Wrappers

  datatype Place = Place(row: nat, col: nat)

  /** Row by row, and from left to right in a row. */
  predicate Before(x: Place, y: Place) {
    x.row < y.row || (x.row == y.row && x.col < y.col)
  }

  /**
   A strict total order in which a place comes before the one to its right, and before all of the
   next row.
   */
  lemma PlaceOrder(x: Place, y: Place, row: nat, col: nat, col': nat)
    ensures Before(Place(row, col), Place(row, col + 1)) && Before(Place(row, col), Place(row + 1, col'))
    ensures x == y || Before(x, y) || Before(y, x)
    ensures !(Before(x, y) && Before(y, x)) && !Before(x, x)
    ensures forall z :: Before(x, y) && Before(y, z) ==> Before(x, z)
  {
  }

  datatype Entry = Entry(place: Place, val: bytes)

  /** As the table is read: by row and column. */
  ghost predicate InOrder(entries: seq<Entry>) {
    forall a, b :: 0 <= a < b < |entries| ==> !Before(entries[b].place, entries[a].place)
  }

  /** The first overwrite of the place, if there is one. */
  function Lookup(entries: seq<Entry>, place: Place): Option<bytes> {
    if entries == [] then None
    else if entries[0].place == place then Some(entries[0].val)
    else Lookup(entries[1..], place)
  }

  lemma {:induction false} LookupFinds(entries: seq<Entry>, place: Place, k: nat)
    requires k < |entries| && entries[k].place == place && forall a :: 0 <= a < k ==> entries[a].place != place
    ensures Lookup(entries, place) == Some(entries[k].val)
  {
    if k > 0 {
      LookupFinds(entries[1..], place, k - 1);
    }
  }

  lemma {:induction false} LookupMisses(entries: seq<Entry>, place: Place)
    requires forall a :: 0 <= a < |entries| ==> entries[a].place != place
    ensures Lookup(entries, place) == None
  {
    if entries != [] {
      LookupMisses(entries[1..], place);
    }
  }

  lemma {:induction false} LookupListed(entries: seq<Entry>, place: Place) returns (k: nat)
    requires Lookup(entries, place).Some?
    ensures k < |entries| && entries[k].place == place
  {
    if entries[0].place == place {
      k := 0;
    } else {
      k := LookupListed(entries[1..], place);
      k := k + 1;
    }
  }

  /** An earlier read was beyond `place`. */
  ghost predicate Passed(past: seq<Place>, place: Place) {
    exists k :: 0 <= k < |past| && Before(place, past[k])
  }

  /** The cursor stands at the first entry no read has gone beyond. */
  ghost predicate CursorAt(entries: seq<Entry>, pos: nat, past: seq<Place>) {
    && pos <= |entries|
    && (forall k :: 0 <= k < pos ==> Passed(past, entries[k].place))
    && (forall k :: pos <= k < |entries| ==> !Passed(past, entries[k].place))
  }

  function Parsed(cells: seq<bytes>, col: nat): bytes {
    if col < |cells| then cells[col] else []
  }

  /** What the cursor says after it has moved for a read of `place`. */
  lemma CursorFinds(entries: seq<Entry>, pos: nat, pos': nat, past: seq<Place>, place: Place)
    requires InOrder(entries) && CursorAt(entries, pos, past) && pos <= pos' <= |entries|
    requires forall k :: pos <= k < pos' ==> Before(entries[k].place, place)
    requires pos' < |entries| ==> !Before(entries[pos'].place, place)
    ensures CursorAt(entries, pos', past + [place])
    ensures pos' < |entries| && entries[pos'].place == place ==>
      !Passed(past, place) && Lookup(entries, place) == Some(entries[pos'].val)
    ensures !(pos' < |entries| && entries[pos'].place == place) ==>
      Passed(past, place) || Lookup(entries, place) == None
  {
    PassedMore(past, place);
    if pos' < |entries| && entries[pos'].place == place {
      LookupFinds(entries, place, pos');
    } else if !Passed(past, place) {
      LookupMisses(entries, place);
    }
  }

  lemma PassedMore(past: seq<Place>, place: Place)
    ensures forall p :: Passed(past + [place], p) <==> Passed(past, p) || Before(p, place)
  {
    var all := past + [place];
    forall p | Passed(past, p) || Before(p, place) ensures Passed(all, p) {
      if Passed(past, p) {
        var k :| 0 <= k < |past| && Before(p, past[k]);
        assert all[k] == past[k];
      } else {
        assert all[|past|] == place;
      }
    }
  }

  class Reader {
    const entries: seq<Entry>
    var pos: nat
    var have: bool                 // `entries[pos]` is loaded
    var overwriting: bool          // the getter in use is the one that looks for overwrites
    ghost var past: seq<Place>    // the cells read so far

    ghost predicate Valid()
      reads this
    {
      && InOrder(entries) && CursorAt(entries, pos, past)
      && (have <==> pos < |entries|) && (!overwriting ==> !have)
    }

    constructor (entries: seq<Entry>)
      requires InOrder(entries)
      ensures Valid() && this.entries == entries && past == []
    {
      this.entries, pos, have, overwriting, past := entries, 0, entries != [], entries != [], [];
    }

    method Next()
      requires have && pos < |entries|
      modifies this`pos, this`have
      ensures pos == old(pos) + 1 && (have <==> pos < |entries|)
    {
      pos := pos + 1;
      have := pos < |entries|;
    }

    /** zsv_have_overwrite() */
    method HaveOverwrite(place: Place) returns (found: bool)
      requires Valid() && overwriting
      modifies this
      ensures Valid() && past == old(past) + [place]
      ensures found <==> Lookup(entries, place).Some? && !Passed(old(past), place)
      ensures found ==> have && pos < |entries| && Lookup(entries, place) == Some(entries[pos].val)
    {
      hide CursorAt, Passed, Lookup;
      ghost var start := pos;
      CursorBound(entries, pos, past);
      while have && entries[pos].place.row < place.row
        invariant start <= pos <= |entries| && (have <==> pos < |entries|) && past == old(past) && overwriting
        invariant forall k :: start <= k < pos ==> Before(entries[k].place, place)
        decreases |entries| - pos
      {
        Next();
      }
      while have && entries[pos].place.row == place.row && entries[pos].place.col < place.col
        invariant start <= pos <= |entries| && (have <==> pos < |entries|) && past == old(past) && overwriting
        invariant forall k :: start <= k < pos ==> Before(entries[k].place, place)
        invariant have ==> entries[pos].place.row >= place.row
        decreases |entries| - pos
      {
        Next();
        RowsInOrder(entries, pos);
      }
      CursorFinds(entries, start, pos, past, place);
      past := past + [place];
      if !have {
        overwriting := false;
      }
      return have && entries[pos].place.row == place.row && entries[pos].place.col == place.col;
    }

    /** Read cell `place.col` of the current row; `cells` are the row's parsed cells. */
    method GetCell(place: Place, cells: seq<bytes>) returns (val: bytes, overwritten: bool)
      requires Valid()
      modifies this
      ensures Valid() && past == old(past) + if place.col < |cells| then [place] else []
      ensures overwritten <==> place.col < |cells| && Lookup(entries, place).Some? && !Passed(old(past), place)
      ensures overwritten ==> Lookup(entries, place) == Some(val)
      ensures !overwritten ==> val == Parsed(cells, place.col)
      ensures place.col >= |cells| ==> val == []
      ensures !overwritten && place.col < |cells| ==> val == cells[place.col]
    {
      if !overwriting { // the plain getter has been put in
        if place.col < |cells| {
          AllPassed(entries, pos, past, place);
          past := past + [place];
          return cells[place.col], false;
        }
        return [], false;
      }
      if place.col < |cells| {
        var found := HaveOverwrite(place);
        if !found {
          return cells[place.col], false;
        }
        return entries[pos].val, true;
      }
      return [], false;
    }
  }

  lemma CursorBound(entries: seq<Entry>, pos: nat, past: seq<Place>)
    requires CursorAt(entries, pos, past)
    ensures pos <= |entries|
  {
  }

  lemma RowsInOrder(entries: seq<Entry>, pos: nat)
    requires InOrder(entries) && 0 < pos
    ensures pos < |entries| ==> entries[pos].place.row >= entries[pos - 1].place.row
  {
    if pos < |entries| {
      assert !Before(entries[pos].place, entries[pos - 1].place);
    }
  }

  /** With the cursor past the end, every overwrite has been passed. */
  lemma AllPassed(entries: seq<Entry>, pos: nat, past: seq<Place>, place: Place)
    requires CursorAt(entries, pos, past) && pos >= |entries|
    ensures Lookup(entries, place).Some? ==> Passed(past, place)
    ensures CursorAt(entries, pos, past + [place])
  {
    PassedMore(past, place);
    if Lookup(entries, place).Some? {
      var k := LookupListed(entries, place);
    }
  }

  // ---------------------------------------------------------------------------------------
  // Reading in order
  // ---------------------------------------------------------------------------------------

  /** Row by row and from left to right; the same cell may be read again. */
  ghost predicate RowMajor(places: seq<Place>) {
    forall a, b :: 0 <= a < b < |places| ==> !Before(places[b], places[a])
  }

  /** What a table of overwrites and the parsed cell make of a read. */
  function Expected(entries: seq<Entry>, place: Place, cells: seq<bytes>): bytes {
    if place.col >= |cells| then []
    else match Lookup(entries, place)
      case Some(val) => val
      case None => cells[place.col]
  }

  /** All reads so far were among the first `n`. */
  ghost predicate ReadFrom(past: seq<Place>, places: seq<Place>, n: nat) {
    n <= |places| && forall r :: r in past ==> r in places[..n]
  }

  lemma ReadFromGrows(past: seq<Place>, places: seq<Place>, n: nat, more: seq<Place>)
    requires ReadFrom(past, places, n) && n < |places| && (more == [] || more == [places[n]])
    ensures ReadFrom(past + more, places, n + 1)
  {
    assert places[..n + 1] == places[..n] + [places[n]];
  }

  lemma ReadFromNothing(places: seq<Place>)
    ensures ReadFrom([], places, 0)
  {
  }

  lemma NonePassed(places: seq<Place>, k: nat, past: seq<Place>)
    requires RowMajor(places) && k < |places| && ReadFrom(past, places, k)
    ensures !Passed(past, places[k])
  {
    forall j | 0 <= j < |past| ensures !Before(places[k], past[j]) {
      assert past[j] in places[..k];
    }
  }

  /** Reads in row-major order see just what a look-up in the table would give them. */
  method ReadCells(entries: seq<Entry>, places: seq<Place>, rows: seq<seq<bytes>>) returns (vals: seq<bytes>)
    requires InOrder(entries) && RowMajor(places) && |rows| == |places|
    ensures |vals| == |places| && forall k :: 0 <= k < |places| ==> vals[k] == Expected(entries, places[k], rows[k])
  {
    hide Lookup, Passed, InOrder, CursorAt, ReadFrom, RowMajor;
    var reader := new Reader(entries);
    vals := [];
    ReadFromNothing(places);
    while |vals| < |places|
      invariant |vals| <= |places| && reader.Valid() && reader.entries == entries && fresh(reader)
      invariant ReadFrom(reader.past, places, |vals|)
      invariant forall k :: 0 <= k < |vals| ==> vals[k] == Expected(entries, places[k], rows[k])
    {
      var k := |vals|;
      NonePassed(places, k, reader.past);
      ReadFromGrows(reader.past, places, k, if places[k].col < |rows[k]| then [places[k]] else []);
      var val, overwritten := reader.GetCell(places[k], rows[k]);
      vals := vals + [val];
    }
  }
}

/** Paging through the board: bulletin-board/api/handlers_public.go serves the pages,
    tally/bbclient.go follows the cursors. */
module BoardClient {
  import opened Common
  import opened Board
  import BS = BoardSafety
  import R = Rfc9162

  // ----- the server

  /** The cursor parameter; a text that is no number counts as position 0. */
  datatype Cursor = Absent | Undecodable | After(position: int)

  const DEFAULT_LIMIT := 100
  const MAX_LIMIT := 1000

  /** The limit parameter, None when absent or no number. */
  function Limit(requested: Option<int>): (n: nat)
    ensures 1 <= n <= MAX_LIMIT
  {
    if requested.Some? && 0 < requested.value <= MAX_LIMIT then requested.value else DEFAULT_LIMIT
  }

  datatype Page = InvalidCursor | Page(records: seq<Record>, next: Cursor)

  function Above(order: seq<int>, after: int): seq<int> {
    if order == [] then []
    else (if order[0] > after then [order[0]] else []) + Above(order[1..], after)
  }

  /** ListBallots: the positions after a given one, ascending, at most limit of them. */
  function ListPositions(t: Table, after: int, limit: nat): seq<int> {
    var above := Above(Ordered(t.Keys), after);
    if |above| <= limit then above else above[..limit]
  }

  function RecordAt(t: Table, position: int): Record {
    if position in t then t[position] else Record([], [], [])
  }

  function RecordsAt(t: Table, positions: seq<int>): seq<Record> {
    seq(|positions|, (i: nat) requires i < |positions| => RecordAt(t, positions[i]))
  }

  /** handleListBallots. */
  function ServePage(t: Table, cursor: Cursor, requested: Option<int>): Page {
    if cursor.Undecodable? then InvalidCursor
    else
      var limit := Limit(requested);
      var positions := ListPositions(t, if cursor.After? then cursor.position else 0, limit);
      Page(RecordsAt(t, positions), if |positions| == limit then After(positions[limit - 1]) else Absent)
  }

  // ----- the client

  /** What the loop has come to: every page read and the records, an error, or more pages to read
      than moments were given. */
  datatype Fetch = Fetched(records: seq<Record>, pages: nat) | FetchFailed | Unfinished

  /** FetchAllBallots from a cursor on, when the i-th page is read from tables[i]; None is a page
      request that fails. */
  function FetchFrom(tables: seq<Option<Table>>, cursor: Cursor, requested: Option<int>): Fetch
    decreases |tables|
  {
    if tables == [] then Unfinished
    else if tables[0].None? then FetchFailed
    else
      var page := ServePage(tables[0].value, cursor, requested);
      if page.InvalidCursor? then FetchFailed
      else if page.next == Absent then Fetched(page.records, 1)
      else
        var rest := FetchFrom(tables[1..], page.next, requested);
        if rest.Fetched? then Fetched(page.records + rest.records, rest.pages + 1) else rest
  }

  /** The loop; tables holds the board's table at the moment of each page read. */
  method FetchAllBallots(tables: seq<Option<Table>>, pageLimit: int) returns (r: Fetch)
    ensures r == FetchFrom(tables, Absent, Some(pageLimit))
  {
    var allBallots: seq<Record> := [];
    var cursor := Absent;
    var i := 0;
    while i < |tables|
      invariant 0 <= i <= |tables|
      invariant FetchFrom(tables, Absent, Some(pageLimit)) == Prepend(allBallots, i, FetchFrom(tables[i..], cursor, Some(pageLimit)))
    {
      assert tables[i..][1..] == tables[i + 1..];
      if tables[i].None? {
        return FetchFailed;
      }
      var page := ServePage(tables[i].value, cursor, Some(pageLimit));
      if page.InvalidCursor? {
        return FetchFailed;
      }
      PrependTwice(allBallots, i, page.records, FetchFrom(tables[i + 1..], page.next, Some(pageLimit)));
      allBallots := allBallots + page.records;
      i := i + 1;
      if page.next == Absent {
        return Fetched(allBallots, i);
      }
      cursor := page.next;
    }
    return Unfinished;
  }

  function Prepend(records: seq<Record>, pages: nat, f: Fetch): Fetch {
    if f.Fetched? then Fetched(records + f.records, pages + f.pages) else f
  }

  lemma PrependTwice(a: seq<Record>, pages: nat, b: seq<Record>, f: Fetch)
    ensures Prepend(a, pages, Prepend(b, 1, f)) == Prepend(a + b, pages + 1, f)
  {
    if f.Fetched? {
      assert a + (b + f.records) == a + b + f.records;
    }
  }

  /** Without a usable limit a page has at most 100 rows; at most 1000 can be asked for. A cursor that
      does not decode is refused. */
  lemma PageLimits(t: Table, cursor: Cursor, requested: Option<int>)
    ensures Limit(requested) == if requested.Some? && 1 <= requested.value <= 1000 then requested.value else 100
    ensures ServePage(t, cursor, requested).InvalidCursor? <==> cursor.Undecodable?
    ensures ServePage(t, cursor, requested).Page? ==> |ServePage(t, cursor, requested).records| <= Limit(requested)
  {
  }

  /** How a fetch from a good cursor ends: at the first failed read, or at the first page without a
      cursor, whichever is read first, and not before. */
  lemma {:induction false} FetchOutcome(tables: seq<Option<Table>>, cursor: Cursor, requested: Option<int>)
    returns (last: nat)
    requires !cursor.Undecodable?
    ensures var r := FetchFrom(tables, cursor, requested);
      && last <= |tables| && (forall i :: 0 <= i < last ==> tables[i].Some?)
      && (r.Unfinished? <==> last == |tables|)
      && (r.FetchFailed? <==> last < |tables| && tables[last].None?)
      && (r.Fetched? <==> last < |tables| && tables[last].Some?)
      && (r.Fetched? ==> r.pages == last + 1)
    decreases |tables|
  {
    hide Limit, ListPositions, RecordsAt;
    last := 0;
    if tables != [] && tables[0].Some? {
      var page := ServePage(tables[0].value, cursor, requested);
      if page.next != Absent {
        var l := FetchOutcome(tables[1..], page.next, requested);
        last := l + 1;
        assert forall i :: 0 < i < last ==> tables[i] == tables[1..][i - 1];
      }
    }
  }

  // ----- one page of a dense table

  lemma {:induction false} AboveAll(order: seq<int>, after: int)
    requires forall i :: 0 <= i < |order| ==> order[i] > after
    ensures Above(order, after) == order
    decreases |order|
  {
    if order != [] {
      AboveAll(order[1..], after);
    }
  }

  lemma {:induction false} AboveRange(order: seq<int>, lo: int, after: int)
    requires lo <= after <= lo + |order| && forall i :: 0 <= i < |order| ==> order[i] == lo + 1 + i
    ensures var above := Above(order, after);
      |above| == lo + |order| - after && forall i :: 0 <= i < |above| ==> above[i] == after + 1 + i
    decreases |order|
  {
    if after == lo {
      AboveAll(order, after);
    } else {
      AboveRange(order[1..], lo + 1, after);
    }
  }

  /** The cursor a client holds after the first `after` rows. */
  ghost function CursorAt(after: nat): Cursor {
    if after == 0 then Absent else After(after)
  }

  /** The rows after a position, in order. */
  ghost function RowsAfter(t: Table, after: nat): seq<Record>
    requires after <= |t|
  {
    seq(|t| - after, (i: nat) => RecordAt(t, after + 1 + i))
  }

  lemma PositionsOfDense(t: Table, after: nat)
    requires Dense(t) && after <= |t|
    ensures var above := Above(Ordered(t.Keys), after);
      |above| == |t| - after && forall i :: 0 <= i < |above| ==> above[i] == after + 1 + i
  {
    BS.DenseOrder(t);
    AboveRange(Ordered(t.Keys), 0, after);
  }

  /** A page is the next `limit` rows, with a cursor exactly when it is full. */
  lemma PageOfDense(t: Table, after: nat, requested: Option<int>)
    requires Dense(t) && after <= |t|
    ensures var (limit, page) := (Limit(requested), ServePage(t, CursorAt(after), requested));
      if |t| - after < limit then page == Page(RowsAfter(t, after), Absent)
      else page == Page(RowsAfter(t, after)[..limit], After(after + limit))
  {
    PositionsOfDense(t, after);
    hide Above, Ordered, Dense, RecordAt, Limit;
    var limit := Limit(requested);
    var positions := ListPositions(t, after, limit);
    if |t| - after < limit {
      RecordsOfRange(t, after, positions);
      assert RowsAfter(t, after)[..|t| - after] == RowsAfter(t, after);
    } else {
      RecordsOfRange(t, after, positions);
    }
  }

  lemma RecordsOfRange(t: Table, after: nat, positions: seq<int>)
    requires after + |positions| <= |t| && forall i :: 0 <= i < |positions| ==> positions[i] == after + 1 + i
    ensures RecordsAt(t, positions) == RowsAfter(t, after)[..|positions|]
  {
    hide RecordAt;
    var (records, rows) := (RecordsAt(t, positions), RowsAfter(t, after));
    forall i | 0 <= i < |positions|
      ensures records[i] == rows[i]
    {
      assert positions[i] == after + 1 + i;
    }
  }

  // ----- the whole fetch

  /** One read of the board and a later one: both dense, rows kept. */
  ghost predicate Later(t: Table, t': Table) {
    Dense(t) && Dense(t') && |t| <= |t'| && forall p :: p in t ==> p in t' && t'[p] == t[p]
  }

  ghost predicate Growing(tables: seq<Option<Table>>) {
    forall i, j :: 0 <= i <= j < |tables| && tables[i].Some? && tables[j].Some? ==> Later(tables[i].value, tables[j].value)
  }

  /** Whatever is appended between the page reads, the fetch returns exactly the board as it was
      at the last of them, in order. */
  lemma {:induction false} FetchIsLastRead(tables: seq<Option<Table>>, after: nat, requested: Option<int>)
    requires Growing(tables) && (tables != [] && tables[0].Some? ==> after <= |tables[0].value|)
    ensures var r := FetchFrom(tables, CursorAt(after), requested);
      r.Fetched? ==> 1 <= r.pages <= |tables| && tables[r.pages - 1].Some?
                     && after <= |tables[r.pages - 1].value| && r.records == RowsAfter(tables[r.pages - 1].value, after)
    decreases |tables|
  {
    hide ServePage, RowsAfter, Limit;
    if tables != [] && tables[0].Some? {
      var t := tables[0].value;
      assert Later(t, t);
      PageOfDense(t, after, requested);
      var limit := Limit(requested);
      if |t| - after >= limit {
        LaterReads(tables, after + limit);
        FetchIsLastRead(tables[1..], after + limit, requested);
        var rest := FetchFrom(tables[1..], CursorAt(after + limit), requested);
        if rest.Fetched? {
          assert tables[1..][rest.pages - 1] == tables[rest.pages];
          JoinRows(t, tables[rest.pages].value, after, limit);
        }
      }
    }
  }

  lemma LaterReads(tables: seq<Option<Table>>, after: nat)
    requires Growing(tables) && tables != [] && tables[0].Some? && after <= |tables[0].value|
    ensures Growing(tables[1..])
    ensures |tables| > 1 && tables[1].Some? ==> after <= |tables[1].value|
  {
    if |tables| > 1 && tables[1].Some? {
      assert Later(tables[0].value, tables[1].value);
    }
    var rest := tables[1..];
    forall i, j | 0 <= i <= j < |rest| && rest[i].Some? && rest[j].Some?
      ensures Later(rest[i].value, rest[j].value)
    {
      assert rest[i] == tables[i + 1] && rest[j] == tables[j + 1];
    }
  }

  lemma JoinRows(t: Table, t': Table, after: nat, limit: nat)
    requires Later(t, t') && after + limit <= |t|
    ensures RowsAfter(t, after)[..limit] + RowsAfter(t', after + limit) == RowsAfter(t', after)
  {
    forall p | after < p <= after + limit
      ensures RecordAt(t, p) == RecordAt(t', p)
    {
      assert p in t;
    }
    var (head, tail, whole) := (RowsAfter(t, after)[..limit], RowsAfter(t', after + limit), RowsAfter(t', after));
    assert |head + tail| == |whole|;
    forall i | 0 <= i < |whole|
      ensures (head + tail)[i] == whole[i]
    {
      if i < limit {
        assert head[i] == RecordAt(t, after + 1 + i);
      } else {
        assert tail[i - limit] == RecordAt(t', after + limit + 1 + (i - limit));
      }
    }
  }

  /** On a sealed board the fetch ends, after one page more than the full ones: a size that is an
      exact multiple of the limit costs one empty page, not a lost or repeated row. */
  lemma {:induction false} SealedFetchEnds(t: Table, moments: nat, after: nat, requested: Option<int>)
    requires Dense(t) && after <= |t| && moments > (|t| - after) / Limit(requested)
    ensures FetchFrom(seq(moments, _ => Some(t)), CursorAt(after), requested)
         == Fetched(RowsAfter(t, after), (|t| - after) / Limit(requested) + 1)
    decreases moments
  {
    hide ServePage, RowsAfter, Limit;
    var limit := Limit(requested);
    PageOfDense(t, after, requested);
    var tables := seq(moments, _ => Some(t));
    if |t| - after >= limit {
      OneFewer(|t| - after, limit);
      SealedFetchEnds(t, moments - 1, after + limit, requested);
      assert tables[1..] == seq(moments - 1, _ => Some(t));
      JoinRows(t, t, after, limit);
    } else {
      NoneLeft(|t| - after, limit);
    }
  }

  lemma OneFewer(n: nat, limit: nat)
    requires 1 <= limit <= n
    ensures (n - limit) / limit == n / limit - 1 && n / limit >= 1
  {
    var (a, b) := (n / limit, (n - limit) / limit);
    assert n == a * limit + n % limit && n - limit == b * limit + (n - limit) % limit;
    QuotientUnique(limit, b + 1, (n - limit) % limit, a, n % limit);
  }

  lemma NoneLeft(n: nat, limit: nat)
    requires n < limit
    ensures n / limit == 0
  {
  }

  lemma QuotientUnique(d: nat, a: int, r: nat, b: int, s: nat)
    requires r < d && s < d && a * d + r == b * d + s
    ensures a == b
  {
    if a < b {
      Spread(d, a, b);
    } else if b < a {
      Spread(d, b, a);
    }
  }

  lemma Spread(d: nat, a: int, b: int)
    requires a < b
    ensures b * d >= a * d + d
  {
    assert b * d == a * d + d + (b - a - 1) * d;
    NonNegative(b - a - 1, d);
  }

  lemma NonNegative(x: nat, y: nat)
    ensures x * y >= 0
  {
  }

  /** The fetch against a running board: page reads at any moments of any single-writer run. */
  lemma FetchDuringRun(H: R.Hasher, validate: Validator, states: seq<State>, steps: seq<BS.Step>,
                       moments: seq<nat>, pageLimit: int)
    requires BS.Run(H, validate, states, steps) && BS.SingleWriter(steps)
    requires forall i :: 0 <= i < |moments| ==> moments[i] < |states|
    requires forall i, j :: 0 <= i <= j < |moments| ==> moments[i] <= moments[j]
    ensures var tables := seq(|moments|, (i: nat) requires i < |moments| && moments[i] < |states| => Some(states[moments[i]].table));
      var r := FetchFrom(tables, Absent, Some(pageLimit));
      r.Fetched? ==> 1 <= r.pages <= |moments| && r.records == RowsAfter(states[moments[r.pages - 1]].table, 0)
  {
    var tables := seq(|moments|, (i: nat) requires i < |moments| && moments[i] < |states| => Some(states[moments[i]].table));
    forall i, j | 0 <= i <= j < |tables|
      ensures Later(tables[i].value, tables[j].value)
    {
      LaterState(H, validate, states, steps, moments[i], moments[j]);
    }
    FetchIsLastRead(tables, 0, Some(pageLimit));
  }

  lemma LaterState(H: R.Hasher, validate: Validator, states: seq<State>, steps: seq<BS.Step>, j: nat, k: nat)
    requires BS.Run(H, validate, states, steps) && BS.SingleWriter(steps) && j <= k < |states|
    ensures Later(states[j].table, states[k].table)
  {
    BS.RunTable(H, validate, states, steps, j);
    BS.RunTable(H, validate, states, steps, k);
    BS.RowsStay(H, validate, states, steps, j, k);
    BS.LeavesGrow(H, states[j].table, states[k].table);
    BS.LeavesOfDense(H, states[j].table);
    BS.LeavesOfDense(H, states[k].table);
  }
}

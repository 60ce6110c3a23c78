/** `parse_fastp` (utils/parse_fastp_report.py): the rows of the first four
    `summary_table` tables of a fastp HTML report folded into a dictionary
    from the first cell's text to the second cell's text, then turned into a
    two-column frame (`description`, `value`). The HTML is given already
    parsed: each table as its rows, each row as the texts of its cells. */
module FastpSummary {
  import opened Wrappers

  /** The texts of the `<td>` cells of one `<tr>`. */
  type Row = seq<string>

  /** The rows of one `summary_table`, in document order. */
  type Table = seq<Row>

  /** One row of the returned frame. */
  datatype Entry = Entry(description: string, value: string)

  /** The tables' rows one after the other, in document order. */
  function Flatten(ts: seq<Table>): (rows: seq<Row>)
  {
    if ts == [] then [] else Flatten(ts[..|ts| - 1]) + ts[|ts| - 1]
  }

  /** `soup.find_all(...)[:4]`: the first four tables, or all of them when
      there are fewer. */
  function FirstFour(tables: seq<Table>): (r: seq<Table>)
    ensures |r| == if |tables| < 4 then |tables| else 4
    ensures r == tables[..|r|]
  {
    if |tables| < 4 then tables else tables[..4]
  }

  /** The rows the nested loops visit. */
  function RowsRead(tables: seq<Table>): seq<Row>
  {
    Flatten(FirstFour(tables))
  }

  /** Every row has the two cells `cells[0]` and `cells[1]` read. */
  predicate Wide(rows: seq<Row>) {
    forall i | 0 <= i < |rows| :: |rows[i]| >= 2
  }

  /** The keys of the dictionary, in its iteration order. */
  function Descriptions(d: seq<Entry>): (ks: seq<string>)
    ensures |ks| == |d|
    ensures forall i | 0 <= i < |d| :: ks[i] == d[i].description
  {
    seq(|d|, i requires 0 <= i < |d| => d[i].description)
  }

  /** No key occurs twice. */
  predicate Distinct(d: seq<Entry>) {
    forall i, j | 0 <= i < j < |d| :: d[i].description != d[j].description
  }

  /** `summary_information[key] = value` on a dictionary held as its entries
      in insertion order: an existing key keeps its place and takes the new
      value, a new key goes at the end. */
  function Put(d: seq<Entry>, key: string, value: string): (r: seq<Entry>)
    ensures key in Descriptions(d) ==>
      |r| == |d| && forall i | 0 <= i < |d| :: r[i] == if d[i].description == key then Entry(key, value) else d[i]
    ensures key !in Descriptions(d) ==> r == d + [Entry(key, value)]
  {
    if key in Descriptions(d) then
      seq(|d|, i requires 0 <= i < |d| => if d[i].description == key then Entry(key, value) else d[i])
    else d + [Entry(key, value)]
  }

  /** The dictionary after the loop body has run on each of `rows`. */
  function Build(rows: seq<Row>): seq<Entry>
    requires Wide(rows)
  {
    if rows == [] then []
    else
      var last := rows[|rows| - 1];
      Put(Build(rows[..|rows| - 1]), last[0], last[1])
  }

  /** What `parse_fastp` returns: the frame's rows, or IndexError when a
      row read has fewer than two cells (`cells[1]` on such a row raises;
      short rows are not skipped). */
  function Summary(tables: seq<Table>): Result<seq<Entry>>
  {
    var rows := RowsRead(tables);
    if Wide(rows) then Ok(Build(rows)) else Err(IndexError)
  }

  /** Every row of every table is among the flattened rows. */
  lemma {:induction false} FlattenContains(ts: seq<Table>, t: nat, j: nat)
    requires t < |ts| && j < |ts[t]|
    ensures ts[t][j] in Flatten(ts)
  {
    var init := ts[..|ts| - 1];
    if t < |ts| - 1 {
      FlattenContains(init, t, j);
    } else {
      assert Flatten(ts)[|Flatten(init)| + j] == ts[t][j];
    }
  }

  /** One more row read: the dictionary takes one more assignment. */
  lemma BuildStep(done: seq<Row>, table: Table, j: nat)
    requires j < |table| && |table[j]| >= 2
    requires Wide(done + table[..j])
    ensures Wide(done + table[..j + 1])
    ensures Build(done + table[..j + 1]) == Put(Build(done + table[..j]), table[j][0], table[j][1])
  {
    var next := done + table[..j + 1];
    assert next[..|next| - 1] == done + table[..j];
    assert next[|next| - 1] == table[j];
  }

  /** One more table read: its rows follow the rows read so far. */
  lemma FlattenStep(read: seq<Table>, t: nat)
    requires t < |read|
    ensures Flatten(read[..t + 1]) == Flatten(read[..t]) + read[t][..|read[t]|]
  {
    assert read[..t + 1][..t] == read[..t];
    assert read[t][..|read[t]|] == read[t];
  }

  /** A short row anywhere among the rows read makes the parse fail. */
  lemma ShortRowFails(tables: seq<Table>, t: nat, j: nat)
    requires t < |FirstFour(tables)| && j < |FirstFour(tables)[t]|
    requires |FirstFour(tables)[t][j]| < 2
    ensures Summary(tables) == Err(IndexError)
  {
    var read := FirstFour(tables);
    FlattenContains(read, t, j);
    var k :| 0 <= k < |RowsRead(tables)| && RowsRead(tables)[k] == read[t][j];
  }

  /** The loops of `parse_fastp`, with the dictionary held in the local
      `summary` (its entries in insertion order). */
  method ParseFastp(tables: seq<Table>) returns (r: Result<seq<Entry>>)
    ensures r == Summary(tables)
  {
    var read := FirstFour(tables);
    var summary: seq<Entry> := [];
    for t := 0 to |read|
      invariant Wide(Flatten(read[..t]))
      invariant summary == Build(Flatten(read[..t]))
    {
      var table := read[t];
      ghost var done := Flatten(read[..t]);
      assert done + table[..0] == done;
      for j := 0 to |table|
        invariant Wide(done + table[..j])
        invariant summary == Build(done + table[..j])
      {
        var cells := table[j];
        if |cells| < 2 {
          ShortRowFails(tables, t, j);
          return Err(IndexError);
        }
        BuildStep(done, table, j);
        summary := Put(summary, cells[0], cells[1]);
      }
      FlattenStep(read, t);
    }
    assert read[..|read|] == read;
    return Ok(summary);
  }

  /** The parse fails exactly when some row of the first four tables has
      fewer than two cells. */
  lemma SummaryFails(tables: seq<Table>)
    ensures Summary(tables).Err? <==>
      exists t, j | 0 <= t < |tables| && t < 4 && 0 <= j < |tables[t]| :: |tables[t][j]| < 2
  {
    var read := FirstFour(tables);
    if Summary(tables).Err? {
      var rows := RowsRead(tables);
      var i :| 0 <= i < |rows| && |rows[i]| < 2;
      var t, j := RowOrigin(read, i);
    } else {
      forall t, j | 0 <= t < |tables| && t < 4 && 0 <= j < |tables[t]| ensures |tables[t][j]| >= 2 {
        assert read[t] == tables[t];
        FlattenContains(read, t, j);
      }
    }
  }

  /** Every flattened row comes from some table. */
  lemma {:induction false} RowOrigin(ts: seq<Table>, i: nat) returns (t: nat, j: nat)
    requires i < |Flatten(ts)|
    ensures t < |ts| && j < |ts[t]| && Flatten(ts)[i] == ts[t][j]
  {
    var init := ts[..|ts| - 1];
    if i < |Flatten(init)| {
      t, j := RowOrigin(init, i);
    } else {
      t, j := |ts| - 1, i - |Flatten(init)|;
    }
  }

  /** Tables after the fourth never affect the result. */
  lemma OnlyFirstFourTables(tables: seq<Table>, more: seq<Table>)
    requires |tables| >= 4
    ensures Summary(tables + more) == Summary(tables)
  {
    assert (tables + more)[..4] == tables[..4];
  }

  /** Putting a key keeps the other keys, adds this one, and keeps the keys
      distinct. */
  lemma PutKeys(d: seq<Entry>, key: string, value: string)
    requires Distinct(d)
    ensures Distinct(Put(d, key, value))
    ensures forall k :: k in Descriptions(Put(d, key, value)) <==> k in Descriptions(d) || k == key
  {
    var r := Put(d, key, value);
    if key in Descriptions(d) {
      assert Descriptions(r) == Descriptions(d);
    } else {
      assert Descriptions(r) == Descriptions(d) + [key];
    }
  }

  /** The first cell of each row, in order. */
  function Keys(rows: seq<Row>): (ks: seq<string>)
    requires Wide(rows)
    ensures |ks| == |rows|
    ensures forall i | 0 <= i < |rows| :: ks[i] == rows[i][0]
  {
    seq(|rows|, i requires 0 <= i < |rows| => rows[i][0])
  }

  /** One entry per distinct key: the keys are distinct and are exactly the
      first cells of the rows read. */
  lemma {:induction false} BuildKeys(rows: seq<Row>)
    requires Wide(rows)
    ensures Distinct(Build(rows))
    ensures forall k :: k in Descriptions(Build(rows)) <==> k in Keys(rows)
  {
    if rows != [] {
      var init, last := rows[..|rows| - 1], rows[|rows| - 1];
      BuildKeys(init);
      PutKeys(Build(init), last[0], last[1]);
      assert Keys(rows) == Keys(init) + [last[0]];
    }
  }

  /** Last write wins: each key's value is the second cell of the last row
      carrying that key. */
  lemma {:induction false} BuildLastWins(rows: seq<Row>)
    requires Wide(rows)
    ensures forall i, j | 0 <= i < |Build(rows)| && 0 <= j < |rows| &&
                          rows[j][0] == Build(rows)[i].description &&
                          (forall j' | j < j' < |rows| :: rows[j'][0] != rows[j][0]) ::
      Build(rows)[i].value == rows[j][1]
  {
    if rows != [] {
      var init, last := rows[..|rows| - 1], rows[|rows| - 1];
      BuildLastWins(init);
      var d := Build(init);
      var r := Build(rows);
      forall i, j | 0 <= i < |r| && 0 <= j < |rows| && rows[j][0] == r[i].description &&
                    (forall j' | j < j' < |rows| :: rows[j'][0] != rows[j][0])
        ensures r[i].value == rows[j][1]
      {
        if j < |rows| - 1 {
          assert rows[|rows| - 1][0] != rows[j][0];
          assert init[j] == rows[j];
          assert i < |d| && r[i] == d[i];
        }
      }
    }
  }

  /** Every row carrying a later key of the dictionary is preceded by a
      row carrying each earlier key. */
  ghost predicate FirstAppearanceOrdered(rows: seq<Row>)
    requires Wide(rows)
  {
    forall i, i', j' | 0 <= i < i' < |Build(rows)| && 0 <= j' < |rows| &&
                       rows[j'][0] == Build(rows)[i'].description ::
      exists j | 0 <= j < j' :: rows[j][0] == Build(rows)[i].description
  }

  /** One more row whose key is already in the dictionary keeps the keys
      in order of first appearance. */
  lemma FirstAppearanceRepeat(init: seq<Row>, last: Row, i: nat, i': nat, j': nat)
    requires Wide(init) && |last| >= 2
    requires FirstAppearanceOrdered(init)
    requires forall k :: k in Descriptions(Build(init)) <==> k in Keys(init)
    requires last[0] in Descriptions(Build(init))
    requires var rows := init + [last];
      Wide(rows) && i < i' < |Build(rows)| && j' < |rows| && rows[j'][0] == Build(rows)[i'].description
    ensures var rows := init + [last];
      exists j | 0 <= j < j' :: rows[j][0] == Build(rows)[i].description
  {
    var rows := init + [last];
    assert rows[..|rows| - 1] == init;
    var d := Build(init);
    var r := Build(rows);
    assert |r| == |d| && r[i].description == d[i].description && r[i'].description == d[i'].description;
    if j' < |init| {
      assert init[j'] == rows[j'];
      var j :| 0 <= j < j' && init[j][0] == d[i].description;
      assert rows[j] == init[j];
    } else {
      // The last row repeats a key that occurs among the earlier rows.
      var jj :| 0 <= jj < |init| && Keys(init)[jj] == last[0];
      var j :| 0 <= j < jj && init[j][0] == d[i].description;
      assert rows[j] == init[j];
    }
  }

  /** One more row with a new key keeps the keys in order of first
      appearance: the new key comes last. */
  lemma FirstAppearanceNew(init: seq<Row>, last: Row, i: nat, i': nat, j': nat)
    requires Wide(init) && |last| >= 2
    requires FirstAppearanceOrdered(init)
    requires forall k :: k in Descriptions(Build(init)) <==> k in Keys(init)
    requires last[0] !in Descriptions(Build(init))
    requires var rows := init + [last];
      Wide(rows) && i < i' < |Build(rows)| && j' < |rows| && rows[j'][0] == Build(rows)[i'].description
    ensures var rows := init + [last];
      exists j | 0 <= j < j' :: rows[j][0] == Build(rows)[i].description
  {
    var rows := init + [last];
    assert rows[..|rows| - 1] == init;
    var d := Build(init);
    var r := Build(rows);
    assert r == d + [Entry(last[0], last[1])];
    assert r[i] == d[i];
    if i' < |d| {
      assert r[i'] == d[i'];
      assert init[j'] == rows[j'];
      var j :| 0 <= j < j' && init[j][0] == d[i].description;
      assert rows[j] == init[j];
    } else {
      assert d[i].description in Descriptions(d);
      var j :| 0 <= j < |init| && Keys(init)[j] == d[i].description;
      assert rows[j] == init[j];
    }
  }

  /** Keys keep the place of their first insertion: every row carrying a
      later key is preceded by a row carrying each earlier key. */
  lemma {:induction false} BuildFirstAppearanceOrder(rows: seq<Row>)
    requires Wide(rows)
    ensures FirstAppearanceOrdered(rows)
  {
    if rows != [] {
      var init, last := rows[..|rows| - 1], rows[|rows| - 1];
      assert rows == init + [last];
      BuildFirstAppearanceOrder(init);
      BuildKeys(init);
      var r := Build(rows);
      forall i, i', j' | 0 <= i < i' < |r| && 0 <= j' < |rows| && rows[j'][0] == r[i'].description
        ensures exists j | 0 <= j < j' :: rows[j][0] == r[i].description
      {
        if last[0] in Descriptions(Build(init)) {
          FirstAppearanceRepeat(init, last, i, i', j');
        } else {
          FirstAppearanceNew(init, last, i, i', j');
        }
      }
    }
  }

  /** The frame `parse_fastp` returns, stated row by row: it has exactly one
      entry per distinct first cell of the rows read, in order of first
      appearance, each holding the second cell of the last row with that
      key. */
  lemma SummaryEntries(tables: seq<Table>)
    requires Summary(tables).Ok?
    ensures Distinct(Summary(tables).value)
    ensures forall k :: k in Descriptions(Summary(tables).value) <==> k in Keys(RowsRead(tables))
    ensures var rows, d := RowsRead(tables), Summary(tables).value;
      forall i, j | 0 <= i < |d| && 0 <= j < |rows| && rows[j][0] == d[i].description &&
                    (forall j' | j < j' < |rows| :: rows[j'][0] != rows[j][0]) ::
        d[i].value == rows[j][1]
    ensures var rows, d := RowsRead(tables), Summary(tables).value;
      forall i, i', j' | 0 <= i < i' < |d| && 0 <= j' < |rows| && rows[j'][0] == d[i'].description ::
        exists j | 0 <= j < j' :: rows[j][0] == d[i].description
  {
    var rows := RowsRead(tables);
    assert Summary(tables).value == Build(rows);
    BuildKeys(rows);
    BuildLastWins(rows);
    BuildFirstAppearanceOrder(rows);
    var d := Build(rows);
    forall i, i', j' | 0 <= i < i' < |d| && 0 <= j' < |rows| && rows[j'][0] == d[i'].description
      ensures exists j | 0 <= j < j' :: rows[j][0] == d[i].description
    {
      assert FirstAppearanceOrdered(rows);
    }
  }
}

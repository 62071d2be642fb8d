/**
 * What the batcher guarantees: which columns it collects, how keys name cells, how the
 * keys are cut into batches, what a failing service leaves behind, and that write-back
 * touches collected cells only.
 */
module TranslatorProofs {
  import opened Wrappers
  import opened Paths
  import opened Translator

  // ---------------------------------------------------------------------------
  // The field filter

  /** `strip` removes the outer whitespace and nothing else. */
  lemma {:induction false} TrimStartSpec(s: string)
    ensures var r := TrimStart(s);
      && |r| <= |s| && r == s[|s| - |r|..]
      && (forall k :: 0 <= k < |s| - |r| ==> IsSpace(s[k]))
      && (r != [] ==> !IsSpace(r[0]))
  {
    if s != [] && IsSpace(s[0]) {
      var t := s[1..];
      TrimStartSpec(t);
      var r := TrimStart(t);
      assert s[|s| - |r|..] == t[|t| - |r|..];
      forall k | 0 <= k < |s| - |r|
        ensures IsSpace(s[k])
      {
        if k > 0 {
          assert s[k] == t[k - 1];
        }
      }
    }
  }

  lemma {:induction false} TrimEndSpec(s: string)
    ensures var r := TrimEnd(s);
      && |r| <= |s| && r == s[..|r|]
      && (forall k :: |r| <= k < |s| ==> IsSpace(s[k]))
      && (r != [] ==> !IsSpace(r[|r| - 1]))
  {
    if s != [] && IsSpace(s[|s| - 1]) {
      TrimEndSpec(s[..|s| - 1]);
    }
  }

  /** `strip` keeps a middle slice whose ends are not whitespace, and everything cut off is whitespace. */
  lemma StripSpec(s: string)
    ensures var r, i := Strip(s), |s| - |TrimStart(s)|;
      && 0 <= i <= |s| - |r| && r == s[i..i + |r|]
      && (forall k :: 0 <= k < i ==> IsSpace(s[k]))
      && (forall k :: i + |r| <= k < |s| ==> IsSpace(s[k]))
      && (r != [] ==> !IsSpace(r[0]) && !IsSpace(r[|r| - 1]))
  {
    var t := TrimStart(s);
    TrimStartSpec(s);
    TrimEndSpec(t);
    var r := TrimEnd(t);
    var i := |s| - |t|;
    assert t == s[i..];
    assert r == t[..|r|];
    assert r == s[i..i + |r|];
    forall k | i + |r| <= k < |s|
      ensures IsSpace(s[k])
    {
      assert s[k] == t[k - i];
      assert |r| <= k - i < |t|;
    }
  }

  /** Removing the dots keeps every other character. */
  lemma {:induction false} RemoveDotsMembers(s: string)
    ensures forall c :: c in RemoveDots(s) <==> c in s && c != '.'
  {
    if s != [] {
      RemoveDotsMembers(s[1..]);
      assert s == [s[0]] + s[1..];
    }
  }

  /** The number test: the text has a character other than a dot, and all of those are digits. */
  lemma NumberTest(s: string)
    ensures IsDigits(RemoveDots(s)) <==>
      (exists c :: c in s && c != '.') && forall c :: c in s && c != '.' ==> IsDigitChar(c)
  {
    RemoveDotsMembers(s);
    var r := RemoveDots(s);
    assert (forall i :: 0 <= i < |r| ==> IsDigitChar(r[i])) <==> (forall c :: c in r ==> IsDigitChar(c));
    assert |r| > 0 <==> exists c :: c in r by {
      if |r| > 0 {
        assert r[0] in r;
      }
    }
  }

  /** Ordinary text in a translated column is collected, and so is text made of dots only. */
  lemma CollectedExamples()
    ensures Collectable("title", Str("Door"))
    ensures Collectable("name", Str("..."))
  {
    assert TranslateFields[0] == "name" && TranslateFields[7] == "title";
    assert TrimStart("Door") == "Door" && TrimEnd("Door") == "Door";
    assert RemoveDots("Door")[0] == 'D';
    assert TrimStart("...") == "..." && TrimEnd("...") == "...";
    assert RemoveDots("...") == "";
  }

  /** Numbers written with dots, links and one-letter text are skipped. */
  lemma SkippedTexts()
    ensures !Collectable("name", Str("1.5"))
    ensures !Collectable("name", Str("http://shop.example"))
    ensures !Collectable("name", Str(" a "))
  {
    assert RemoveDots("1.5") == "15";
    assert "http" == "http://shop.example"[..4];
    assert TrimStart(" a ") == "a " && TrimEnd("a ") == "a";
  }

  /** Columns outside the translated ones, and values that are not strings, are skipped. */
  lemma SkippedColumns()
    ensures !Collectable("sku", Str("Door"))
    ensures !Collectable("name", Num(12))
  {
    assert forall i :: 0 <= i < |TranslateFields| ==> |TranslateFields[i]| != 3;
  }

  // ---------------------------------------------------------------------------
  // Keys

  function DigitValue(c: char): nat
  {
    if IsDigitChar(c) then c as int - '0' as int else 0
  }

  /** Reading a decimal numeral back, as `int(s)` does. */
  function ParseDigits(s: string): nat
  {
    if s == [] then 0 else ParseDigits(s[..|s| - 1]) * 10 + DigitValue(s[|s| - 1])
  }

  /** A row index is written with digits only, so it contains no colon. */
  lemma {:induction false} NatToStringDigits(n: nat)
    ensures var s := NatToString(n);
      |s| > 0 && (forall i :: 0 <= i < |s| ==> IsDigitChar(s[i])) && ':' !in s
  {
    if n >= 10 {
      NatToStringDigits(n / 10);
    }
  }

  /** Writing a row index and reading it back gives the index. */
  lemma {:induction false} NatToStringRoundTrip(n: nat)
    ensures ParseDigits(NatToString(n)) == n
  {
    var s := NatToString(n);
    if n < 10 {
      assert s[..0] == [];
    } else {
      var a := NatToString(n / 10);
      NatToStringRoundTrip(n / 10);
      assert s == a + [DigitChar(n % 10)];
      assert s[..|s| - 1] == a;
    }
  }

  /** None of the translated column names contains a colon. */
  lemma TranslateFieldsPlain(f: string)
    requires f in TranslateFields
    ensures ':' !in f
  {
  }

  /** Keys name cells: two cells of colon-free columns with the same key are the same cell. */
  lemma KeyInjective(c1: Cell, c2: Cell)
    requires ':' !in c1.field && ':' !in c2.field
    ensures KeyOf(c1) == KeyOf(c2) ==> c1 == c2
  {
    var r1, r2 := NatToString(c1.row), NatToString(c2.row);
    NatToStringDigits(c1.row);
    NatToStringDigits(c2.row);
    var b1, b2 := c1.table + ":", c2.table + ":";
    var a1, a2 := b1 + [':'] + r1 + ":", b2 + [':'] + r2 + ":";
    assert KeyOf(c1) == a1 + [':'] + c1.field;
    assert KeyOf(c2) == a2 + [':'] + c2.field;
    SplitAtLast(a1, c1.field, a2, c2.field, ':');
    if KeyOf(c1) == KeyOf(c2) {
      assert a1[..|a1| - 1] == b1 + [':'] + r1;
      assert a2[..|a2| - 1] == b2 + [':'] + r2;
      SplitAtLast(b1, r1, b2, r2, ':');
      assert c1.table == b1[..|b1| - 1] == b2[..|b2| - 1] == c2.table;
      NatToStringRoundTrip(c1.row);
      NatToStringRoundTrip(c2.row);
    }
  }

  // ---------------------------------------------------------------------------
  // What is collected

  /** A row yields an item exactly for each collectable column, under the row's cell. */
  lemma FieldItemsIff(table: string, r: nat, fields: seq<Field>, it: Item)
    ensures it in FieldItems(table, r, fields) <==>
      && it.cell.table == table && it.cell.row == r
      && exists k :: 0 <= k < |fields| && fields[k] == Field(it.cell.field, Str(it.text)) &&
           Collectable(fields[k].name, fields[k].value)
  {
    if it in FieldItems(table, r, fields) {
      FieldItemsSound(table, r, fields, it);
    }
    if it.cell.table == table && it.cell.row == r {
      if k :| 0 <= k < |fields| && fields[k] == Field(it.cell.field, Str(it.text)) &&
              Collectable(fields[k].name, fields[k].value) {
        FieldItemsComplete(table, r, fields, k);
      }
    }
  }

  lemma {:induction false} FieldItemsSound(table: string, r: nat, fields: seq<Field>, it: Item)
    requires it in FieldItems(table, r, fields)
    ensures it.cell.table == table && it.cell.row == r
    ensures exists k :: 0 <= k < |fields| && fields[k] == Field(it.cell.field, Str(it.text)) &&
                        Collectable(fields[k].name, fields[k].value)
  {
    var prefix := fields[..|fields| - 1];
    if it in FieldItems(table, r, prefix) {
      FieldItemsSound(table, r, prefix, it);
      var k :| 0 <= k < |prefix| && prefix[k] == Field(it.cell.field, Str(it.text)) &&
        Collectable(prefix[k].name, prefix[k].value);
      assert fields[k] == prefix[k];
    } else {
      assert fields[|fields| - 1] == Field(it.cell.field, Str(it.text));
    }
  }

  lemma {:induction false} FieldItemsComplete(table: string, r: nat, fields: seq<Field>, k: nat)
    requires k < |fields| && fields[k].value.Str? && Collectable(fields[k].name, fields[k].value)
    ensures Item(Cell(table, r, fields[k].name), fields[k].value.s) in FieldItems(table, r, fields)
  {
    var prefix := fields[..|fields| - 1];
    if k < |prefix| {
      assert prefix[k] == fields[k];
      FieldItemsComplete(table, r, prefix, k);
    }
  }

  /** A table's rows yield the items of each row, under that row's index. */
  lemma {:induction false} RowItemsIff(table: string, rows: seq<Row>, it: Item)
    ensures it in RowItems(table, rows) <==>
      it.cell.row < |rows| && it in FieldItems(table, it.cell.row, rows[it.cell.row])
  {
    if rows != [] {
      var prefix, n := rows[..|rows| - 1], |rows| - 1;
      RowItemsIff(table, prefix, it);
      FieldItemsIff(table, n, rows[n], it);
      if it.cell.row < n {
        assert prefix[it.cell.row] == rows[it.cell.row];
      }
    }
  }

  /** The dump yields the items of the tables that have rows, under each table's name. */
  lemma {:induction false} DocItemsIff(data: Document, it: Item)
    ensures it in DocItems(data) <==>
      exists ti :: 0 <= ti < |data| && data[ti].rows.Some? && data[ti].name == it.cell.table &&
        it in RowItems(data[ti].name, data[ti].rows.value)
  {
    if data != [] {
      var prefix, t := data[..|data| - 1], data[|data| - 1];
      DocItemsIff(prefix, it);
      TableItemsNamed(t, it);
      if it in DocItems(data) && it !in DocItems(prefix) {
        assert data[|data| - 1] == t;
      }
      if ti :| 0 <= ti < |data| && data[ti].rows.Some? && data[ti].name == it.cell.table &&
               it in RowItems(data[ti].name, data[ti].rows.value) {
        if ti < |prefix| {
          assert prefix[ti] == data[ti];
        }
      }
    }
  }

  /** A table yields an item exactly when it has rows, the item names it, and its rows yield the item. */
  lemma TableItemsNamed(t: Table, it: Item)
    ensures it in TableItems(t) <==>
      t.rows.Some? && t.name == it.cell.table && it in RowItems(t.name, t.rows.value)
  {
    if t.rows.Some? {
      RowItemsIff(t.name, t.rows.value, it);
      FieldItemsIff(t.name, it.cell.row, if it.cell.row < |t.rows.value| then t.rows.value[it.cell.row] else [], it);
    }
  }

  /** Every collected item comes from a translated column, so its column name has no colon. */
  lemma CollectedColumnPlain(data: Document, it: Item)
    requires it in DocItems(data)
    ensures it.cell.field in TranslateFields && ':' !in it.cell.field
  {
    DocItemsIff(data, it);
    var ti :| 0 <= ti < |data| && data[ti].rows.Some? && data[ti].name == it.cell.table &&
      it in RowItems(data[ti].name, data[ti].rows.value);
    RowItemsIff(data[ti].name, data[ti].rows.value, it);
    FieldItemsSound(data[ti].name, it.cell.row, data[ti].rows.value[it.cell.row], it);
    TranslateFieldsPlain(it.cell.field);
  }

  // ---------------------------------------------------------------------------
  // One key per cell

  /** No two items share a cell. */
  predicate CellsDistinct(items: seq<Item>)
  {
    forall i, j :: 0 <= i < j < |items| ==> items[i].cell != items[j].cell
  }

  lemma DistinctConcat(a: seq<Item>, b: seq<Item>)
    requires CellsDistinct(a) && CellsDistinct(b)
    requires forall x, y :: x in a && y in b ==> x.cell != y.cell
    ensures CellsDistinct(a + b)
  {
    var s := a + b;
    forall i, j | 0 <= i < j < |s|
      ensures s[i].cell != s[j].cell
    {
      if j < |a| {
        assert s[i] == a[i] && s[j] == a[j];
      } else if i >= |a| {
        assert s[i] == b[i - |a|] && s[j] == b[j - |a|];
      } else {
        assert s[i] in a && s[j] in b;
      }
    }
  }

  /** Columns of a row have distinct names, so its items have distinct cells. */
  lemma {:induction false} FieldItemsDistinct(table: string, r: nat, fields: seq<Field>)
    requires DistinctNames(fields)
    ensures CellsDistinct(FieldItems(table, r, fields))
  {
    if fields != [] {
      var prefix, f := fields[..|fields| - 1], fields[|fields| - 1];
      assert DistinctNames(prefix) by {
        forall a, b | 0 <= a < b < |prefix|
          ensures prefix[a].name != prefix[b].name
        {
          assert prefix[a] == fields[a] && prefix[b] == fields[b];
        }
      }
      FieldItemsDistinct(table, r, prefix);
      var last := if Collectable(f.name, f.value) then [Item(Cell(table, r, f.name), f.value.s)] else [];
      forall x, y | x in FieldItems(table, r, prefix) && y in last
        ensures x.cell != y.cell
      {
        FieldItemsSound(table, r, prefix, x);
        var k :| 0 <= k < |prefix| && prefix[k] == Field(x.cell.field, Str(x.text)) &&
          Collectable(prefix[k].name, prefix[k].value);
        assert prefix[k] == fields[k];
      }
      DistinctConcat(FieldItems(table, r, prefix), last);
    }
  }

  /** Rows have distinct indices, so a table's items have distinct cells. */
  lemma {:induction false} RowItemsDistinct(table: string, rows: seq<Row>)
    requires forall r :: 0 <= r < |rows| ==> DistinctNames(rows[r])
    ensures CellsDistinct(RowItems(table, rows))
  {
    if rows != [] {
      var prefix, n := rows[..|rows| - 1], |rows| - 1;
      assert forall r :: 0 <= r < |prefix| ==> prefix[r] == rows[r];
      RowItemsDistinct(table, prefix);
      FieldItemsDistinct(table, n, rows[n]);
      forall x, y | x in RowItems(table, prefix) && y in FieldItems(table, n, rows[n])
        ensures x.cell != y.cell
      {
        RowItemsIff(table, prefix, x);
        FieldItemsSound(table, n, rows[n], y);
      }
      DistinctConcat(RowItems(table, prefix), FieldItems(table, n, rows[n]));
    }
  }

  /** In a well-formed dump every collected item has its own cell. */
  lemma {:induction false} DocItemsDistinct(data: Document)
    requires WellFormedDoc(data)
    ensures CellsDistinct(DocItems(data))
  {
    if data != [] {
      var prefix, t := data[..|data| - 1], data[|data| - 1];
      assert forall i :: 0 <= i < |prefix| ==> prefix[i] == data[i];
      assert WellFormedDoc(prefix);
      DocItemsDistinct(prefix);
      var tail := TableItems(t);
      if t.rows.Some? {
        RowItemsDistinct(t.name, t.rows.value);
      }
      forall x, y | x in DocItems(prefix) && y in tail
        ensures x.cell != y.cell
      {
        DocItemsIff(prefix, x);
        var ti :| 0 <= ti < |prefix| && prefix[ti].rows.Some? && prefix[ti].name == x.cell.table &&
          x in RowItems(prefix[ti].name, prefix[ti].rows.value);
        RowItemsIff(t.name, t.rows.value, y);
        FieldItemsSound(t.name, y.cell.row, t.rows.value[y.cell.row], y);
      }
      DistinctConcat(DocItems(prefix), tail);
    }
  }

  /**
   * In a well-formed dump the keys are pairwise distinct, so `batch_buffer` and `mapping`
   * gain one entry per collected item, in collection order.
   */
  lemma KeysDistinct(data: Document)
    requires WellFormedDoc(data)
    ensures var items := DocItems(data);
      forall i, j :: 0 <= i < j < |items| ==> KeyOf(items[i].cell) != KeyOf(items[j].cell)
  {
    var items := DocItems(data);
    DocItemsDistinct(data);
    forall i, j | 0 <= i < j < |items|
      ensures KeyOf(items[i].cell) != KeyOf(items[j].cell)
    {
      CollectedColumnPlain(data, items[i]);
      CollectedColumnPlain(data, items[j]);
      KeyInjective(items[i].cell, items[j].cell);
    }
  }

  /** `mapping` holds exactly the keys of the items, each mapped to the cell of an item with that key. */
  lemma {:induction false} MappingSpec(items: seq<Item>, k: string)
    ensures k in Mapping(items) <==> exists it :: it in items && KeyOf(it.cell) == k
    ensures k in Mapping(items) ==> exists it :: it in items && KeyOf(it.cell) == k && Mapping(items)[k] == it.cell
  {
    if items != [] {
      var prefix, last := items[..|items| - 1], items[|items| - 1];
      MappingSpec(prefix, k);
      assert items == prefix + [last];
      if it :| it in items && KeyOf(it.cell) == k {
        if it != last {
          assert it in prefix;
        }
      }
    }
  }

  /** Every collected item's key maps to its own cell. */
  lemma MappingOfItem(data: Document, it: Item)
    requires it in DocItems(data)
    ensures KeyOf(it.cell) in Mapping(DocItems(data)) && Mapping(DocItems(data))[KeyOf(it.cell)] == it.cell
  {
    var items := DocItems(data);
    MappingSpec(items, KeyOf(it.cell));
    var other :| other in items && KeyOf(other.cell) == KeyOf(it.cell) && Mapping(items)[KeyOf(it.cell)] == other.cell;
    CollectedColumnPlain(data, it);
    CollectedColumnPlain(data, other);
    KeyInjective(it.cell, other.cell);
  }

  // ---------------------------------------------------------------------------
  // Batches

  function Flatten<T>(ss: seq<seq<T>>): seq<T>
  {
    if ss == [] then [] else ss[0] + Flatten(ss[1..])
  }

  /** The batches, read in order, are the keys in collection order: each key is sent exactly once. */
  lemma {:induction false} ChunksFlatten<T>(s: seq<T>)
    ensures Flatten(Chunks(s)) == s
    decreases |s|
  {
    if |s| > BatchSize {
      var c := Chunks(s);
      ChunksFlatten(s[BatchSize..]);
      assert c[0] == s[..BatchSize] && c[1..] == Chunks(s[BatchSize..]);
      assert s == s[..BatchSize] + s[BatchSize..];
    } else if s != [] {
      assert Chunks(s)[1..] == [];
      assert s + [] == s;
    }
  }

  /** No batch is empty or larger than `BatchSize`, and every batch but the last is full. */
  lemma {:induction false} ChunkSizes<T>(s: seq<T>, j: nat)
    requires j < |Chunks(s)|
    ensures 0 < |Chunks(s)[j]| <= BatchSize
    ensures j < |Chunks(s)| - 1 ==> |Chunks(s)[j]| == BatchSize
    decreases |s|
  {
    if |s| > BatchSize && j > 0 {
      var rest := Chunks(s[BatchSize..]);
      assert Chunks(s) == [s[..BatchSize]] + rest;
      ChunkSizes(s[BatchSize..], j - 1);
    }
  }

  /** There are `ceil(n / BatchSize)` batches for `n` keys, none for no keys. */
  lemma {:induction false} ChunkCount<T>(s: seq<T>)
    ensures |Chunks(s)| == (|s| + BatchSize - 1) / BatchSize
    decreases |s|
  {
    if |s| > BatchSize {
      ChunkCount(s[BatchSize..]);
    }
  }

  // ---------------------------------------------------------------------------
  // The translation service

  lemma {:induction false} AnswerFirst(client: Client, batch: seq<(string, string)>, from: nat, a: nat)
    requires from <= a < MaxRetries && client(batch, a).Some?
    requires forall b :: from <= b < a ==> client(batch, b).None?
    ensures Answer(client, batch, from) == client(batch, a).value
    decreases a - from
  {
    if from < a {
      AnswerFirst(client, batch, from + 1, a);
    }
  }

  lemma {:induction false} AnswerNone(client: Client, batch: seq<(string, string)>, from: nat)
    requires forall b :: from <= b < MaxRetries ==> client(batch, b).None?
    ensures Answer(client, batch, from) == []
    decreases MaxRetries - from
  {
    if from < MaxRetries {
      AnswerNone(client, batch, from + 1);
    }
  }

  /**
   * `translate_batch`: `{}` for an empty batch and after `MaxRetries` failed attempts;
   * otherwise the answer of the first attempt that succeeds.
   */
  lemma TranslationOutcomes(client: Client, batch: seq<(string, string)>)
    ensures batch == [] ==> Translation(client, batch) == []
    ensures (forall a :: 0 <= a < MaxRetries ==> client(batch, a).None?) ==> Translation(client, batch) == []
  {
    if forall a :: 0 <= a < MaxRetries ==> client(batch, a).None? {
      AnswerNone(client, batch, 0);
    }
  }

  /** The first successful attempt decides the answer of a non-empty batch. */
  lemma FirstAnswerWins(client: Client, batch: seq<(string, string)>, a: nat)
    requires batch != [] && a < MaxRetries && client(batch, a).Some?
    requires forall b :: 0 <= b < a ==> client(batch, b).None?
    ensures Translation(client, batch) == client(batch, a).value
  {
    AnswerFirst(client, batch, 0, a);
  }

  // ---------------------------------------------------------------------------
  // Write-back

  /** The cell at table `ti`, row `r`, column `k`, with its value, when the dump has one there. */
  function CellAt(doc: Document, ti: nat, r: nat, k: nat): Option<(Cell, Value)>
  {
    if ti < |doc| && doc[ti].rows.Some? && r < |doc[ti].rows.value| && k < |doc[ti].rows.value[r]| then
      var f := doc[ti].rows.value[r][k];
      Some((Cell(doc[ti].name, r, f.name), f.value))
    else None
  }

  /** `at` with its value replaced by `w`, when there is a cell and a new value. */
  function Overwritten(at: Option<(Cell, Value)>, w: Option<Value>): Option<(Cell, Value)>
  {
    if at.Some? && w.Some? then Some((at.value.0, w.value)) else at
  }

  lemma {:induction false} SetFieldAt(fields: seq<Field>, name: string, v: Value, k: nat)
    requires k < |fields|
    ensures SetField(fields, name, v)[k] == if fields[k].name == name then Field(name, v) else fields[k]
  {
    var prefix := fields[..|fields| - 1];
    if k < |prefix| {
      SetFieldAt(prefix, name, v, k);
    }
  }

  lemma {:induction false} SetCellTable(doc: Document, c: Cell, v: Value, ti: nat)
    requires ti < |doc|
    ensures SetCell(doc, c, v)[ti] ==
      if doc[ti].name == c.table && doc[ti].rows.Some? then doc[ti].(rows := Some(SetRow(doc[ti].rows.value, c.row, c.field, v)))
      else doc[ti]
  {
    var prefix := doc[..|doc| - 1];
    if ti < |prefix| {
      SetCellTable(prefix, c, v, ti);
    }
  }

  /** `data[t]["rows"][r][f] = v` changes exactly the value of the cell it names. */
  lemma SetCellAt(doc: Document, c: Cell, v: Value, ti: nat, r: nat, k: nat)
    ensures var at := CellAt(doc, ti, r, k);
      CellAt(SetCell(doc, c, v), ti, r, k) == Overwritten(at, if at.Some? && at.value.0 == c then Some(v) else None)
  {
    if ti < |doc| {
      SetCellTable(doc, c, v, ti);
      var t := doc[ti];
      if t.name == c.table && t.rows.Some? && r < |t.rows.value| && r == c.row && k < |t.rows.value[r]| {
        SetFieldAt(t.rows.value[r], c.field, v, k);
      }
    }
  }

  /** The last truthy value answered under a key that `mapping` sends to cell `c`. */
  function LastWrite(mapping: map<string, Cell>, results: seq<(string, Value)>, c: Cell): Option<Value>
  {
    if results == [] then None
    else
      var (k, v) := results[|results| - 1];
      if k in mapping && mapping[k] == c && Truthy(v) then Some(v)
      else LastWrite(mapping, results[..|results| - 1], c)
  }

  /** After one batch's write-back each cell holds the last usable answer for it, or its old value. */
  lemma {:induction false} ApplyAt(doc: Document, mapping: map<string, Cell>, results: seq<(string, Value)>, ti: nat, r: nat, k: nat)
    ensures var at := CellAt(doc, ti, r, k);
      CellAt(Apply(doc, mapping, results), ti, r, k) == Overwritten(at, if at.Some? then LastWrite(mapping, results, at.value.0) else None)
  {
    if results != [] {
      var prefix := results[..|results| - 1];
      var (key, v) := results[|results| - 1];
      var d := Apply(doc, mapping, prefix);
      ApplyAt(doc, mapping, prefix, ti, r, k);
      if key in mapping && Truthy(v) {
        SetCellAt(d, mapping[key], v, ti, r, k);
      }
    }
  }

  /** The last usable answer for cell `c` over the batches sent, later batches winning. */
  function LastAnswer(mapping: map<string, Cell>, client: Client, chunks: seq<seq<Item>>, c: Cell): Option<Value>
  {
    if chunks == [] then None
    else
      var w := LastWrite(mapping, Translation(client, BatchOf(chunks[|chunks| - 1])), c);
      if w.Some? then w else LastAnswer(mapping, client, chunks[..|chunks| - 1], c)
  }

  lemma {:induction false} ApplyBatchesAt(doc: Document, mapping: map<string, Cell>, client: Client, chunks: seq<seq<Item>>,
                                          ti: nat, r: nat, k: nat)
    ensures var at := CellAt(doc, ti, r, k);
      CellAt(ApplyBatches(doc, mapping, client, chunks), ti, r, k) ==
        Overwritten(at, if at.Some? then LastAnswer(mapping, client, chunks, at.value.0) else None)
  {
    if chunks != [] {
      var prefix := chunks[..|chunks| - 1];
      var d := ApplyBatches(doc, mapping, client, prefix);
      ApplyBatchesAt(doc, mapping, client, prefix, ti, r, k);
      ApplyAt(d, mapping, Translation(client, BatchOf(chunks[|chunks| - 1])), ti, r, k);
    }
  }

  /**
   * The translated dump: every cell keeps its place and its name, and holds the last
   * usable answer sent back for its key, or its old value when there is none.
   */
  lemma TranslatedAt(data: Document, client: Client, ti: nat, r: nat, k: nat)
    ensures var at, items := CellAt(data, ti, r, k), DocItems(data);
      CellAt(Translated(data, client), ti, r, k) ==
        Overwritten(at, if at.Some? then LastAnswer(Mapping(items), client, Chunks(items), at.value.0) else None)
  {
    var items := DocItems(data);
    ApplyBatchesAt(data, Mapping(items), client, Chunks(items), ti, r, k);
  }

  lemma {:induction false} LastWriteOutside(mapping: map<string, Cell>, results: seq<(string, Value)>, c: Cell)
    requires forall key :: key in mapping ==> mapping[key] != c
    ensures LastWrite(mapping, results, c) == None
  {
    if results != [] {
      LastWriteOutside(mapping, results[..|results| - 1], c);
    }
  }

  lemma {:induction false} LastAnswerOutside(mapping: map<string, Cell>, client: Client, chunks: seq<seq<Item>>, c: Cell)
    requires forall key :: key in mapping ==> mapping[key] != c
    ensures LastAnswer(mapping, client, chunks, c) == None
  {
    if chunks != [] {
      LastWriteOutside(mapping, Translation(client, BatchOf(chunks[|chunks| - 1])), c);
      LastAnswerOutside(mapping, client, chunks[..|chunks| - 1], c);
    }
  }

  /** A cell that was not collected keeps its value, whatever the service answers. */
  lemma OnlyCollectedCellsChange(data: Document, client: Client, ti: nat, r: nat, k: nat)
    requires CellAt(data, ti, r, k).Some?
    requires forall it :: it in DocItems(data) ==> it.cell != CellAt(data, ti, r, k).value.0
    ensures CellAt(Translated(data, client), ti, r, k) == CellAt(data, ti, r, k)
  {
    var items, c := DocItems(data), CellAt(data, ti, r, k).value.0;
    var m := Mapping(items);
    forall key | key in m
      ensures m[key] != c
    {
      MappingSpec(items, key);
    }
    LastAnswerOutside(m, client, Chunks(items), c);
    TranslatedAt(data, client, ti, r, k);
  }

  lemma {:induction false} ApplyBatchesSilent(doc: Document, mapping: map<string, Cell>, client: Client, chunks: seq<seq<Item>>)
    requires forall b, a :: 0 <= a < MaxRetries ==> client(b, a).None?
    ensures ApplyBatches(doc, mapping, client, chunks) == doc
  {
    if chunks != [] {
      ApplyBatchesSilent(doc, mapping, client, chunks[..|chunks| - 1]);
      AnswerNone(client, BatchOf(chunks[|chunks| - 1]), 0);
    }
  }

  /** When every attempt fails, every batch comes back as `{}` and the dump is left as it was. */
  lemma FailingServiceChangesNothing(data: Document, client: Client)
    requires forall b, a :: 0 <= a < MaxRetries ==> client(b, a).None?
    ensures Translated(data, client) == data
  {
    var items := DocItems(data);
    ApplyBatchesSilent(data, Mapping(items), client, Chunks(items));
  }

  // ---------------------------------------------------------------------------
  // The dump keeps its shape

  function FieldNames(row: Row): seq<string>
  {
    if row == [] then [] else FieldNames(row[..|row| - 1]) + [row[|row| - 1].name]
  }

  function RowShapes(rows: seq<Row>): seq<seq<string>>
  {
    if rows == [] then [] else RowShapes(rows[..|rows| - 1]) + [FieldNames(rows[|rows| - 1])]
  }

  /** The dump without its values: table names, which tables have rows, and each row's column names. */
  function Skeleton(doc: Document): seq<(string, Option<seq<seq<string>>>)>
  {
    if doc == [] then []
    else
      var t := doc[|doc| - 1];
      Skeleton(doc[..|doc| - 1]) + [(t.name, if t.rows.Some? then Some(RowShapes(t.rows.value)) else None)]
  }

  lemma {:induction false} SetFieldNames(fields: seq<Field>, name: string, v: Value)
    ensures FieldNames(SetField(fields, name, v)) == FieldNames(fields)
  {
    if fields != [] {
      var r := SetField(fields, name, v);
      SetFieldNames(fields[..|fields| - 1], name, v);
      assert r[..|r| - 1] == SetField(fields[..|fields| - 1], name, v);
    }
  }

  lemma {:induction false} RowShapesUpdate(rows: seq<Row>, r: nat, x: Row)
    requires r < |rows| && FieldNames(x) == FieldNames(rows[r])
    ensures RowShapes(rows[r := x]) == RowShapes(rows)
  {
    var u := rows[r := x];
    var prefix := rows[..|rows| - 1];
    if r < |prefix| {
      RowShapesUpdate(prefix, r, x);
      assert u[..|u| - 1] == prefix[r := x];
    } else {
      assert u[..|u| - 1] == prefix;
    }
  }

  lemma {:induction false} SetCellSkeleton(doc: Document, c: Cell, v: Value)
    ensures Skeleton(SetCell(doc, c, v)) == Skeleton(doc)
  {
    if doc != [] {
      var res := SetCell(doc, c, v);
      var t := doc[|doc| - 1];
      SetCellSkeleton(doc[..|doc| - 1], c, v);
      assert res[..|res| - 1] == SetCell(doc[..|doc| - 1], c, v);
      if t.name == c.table && t.rows.Some? && c.row < |t.rows.value| {
        SetFieldNames(t.rows.value[c.row], c.field, v);
        RowShapesUpdate(t.rows.value, c.row, SetField(t.rows.value[c.row], c.field, v));
      }
    }
  }

  lemma {:induction false} ApplySkeleton(doc: Document, mapping: map<string, Cell>, results: seq<(string, Value)>)
    ensures Skeleton(Apply(doc, mapping, results)) == Skeleton(doc)
  {
    if results != [] {
      var (key, v) := results[|results| - 1];
      ApplySkeleton(doc, mapping, results[..|results| - 1]);
      if key in mapping && Truthy(v) {
        SetCellSkeleton(Apply(doc, mapping, results[..|results| - 1]), mapping[key], v);
      }
    }
  }

  lemma {:induction false} ApplyBatchesSkeleton(doc: Document, mapping: map<string, Cell>, client: Client, chunks: seq<seq<Item>>)
    ensures Skeleton(ApplyBatches(doc, mapping, client, chunks)) == Skeleton(doc)
  {
    if chunks != [] {
      var prefix := chunks[..|chunks| - 1];
      ApplyBatchesSkeleton(doc, mapping, client, prefix);
      ApplySkeleton(ApplyBatches(doc, mapping, client, prefix), mapping, Translation(client, BatchOf(chunks[|chunks| - 1])));
    }
  }

  /** Translation keeps the set of tables, which have rows, the row counts and every row's columns. */
  lemma TranslatedKeepsShape(data: Document, client: Client)
    ensures Skeleton(Translated(data, client)) == Skeleton(data)
  {
    var items := DocItems(data);
    ApplyBatchesSkeleton(data, Mapping(items), client, Chunks(items));
  }
}

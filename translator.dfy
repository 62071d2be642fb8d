/**
 * The database-dump translation batcher: it scans a dump `{table: {"rows": [row, ...]}}`,
 * collects the text fields worth translating, sends them to a translation service in
 * batches of fifteen, and writes every usable answer back into the dump.
 */
module Translator {
  import opened Wrappers

  // ---------------------------------------------------------------------------
  // The dump

  /** A JSON value as the dump holds it (numbers are kept as integers). */
  datatype Value =
    | Null
    | Bool(b: bool)
    | Num(n: int)
    | Str(s: string)
    | Arr(items: seq<Value>)
    | Obj(members: seq<(string, Value)>)

  /** Python truthiness of a JSON value. */
  predicate Truthy(v: Value)
  {
    match v
    case Null => false
    case Bool(b) => b
    case Num(n) => n != 0
    case Str(s) => s != ""
    case Arr(items) => items != []
    case Obj(members) => members != []
  }

  /** One column of a row. */
  datatype Field = Field(name: string, value: Value)

  /** A row: its columns in order. */
  type Row = seq<Field>

  /** A table of the dump; `rows` is `None` when the table has no `"rows"` entry. */
  datatype Table = Table(name: string, rows: Option<seq<Row>>)

  /** The dump: its tables in order. */
  type Document = seq<Table>

  /** What a JSON object guarantees: table names are unique, and so are the column names of each row. */
  predicate WellFormedDoc(data: Document)
  {
    && (forall i, j :: 0 <= i < j < |data| ==> data[i].name != data[j].name)
    && (forall i :: 0 <= i < |data| && data[i].rows.Some? ==> forall r :: 0 <= r < |data[i].rows.value| ==>
          DistinctNames(data[i].rows.value[r]))
  }

  predicate DistinctNames(row: Row)
  {
    forall a, b :: 0 <= a < b < |row| ==> row[a].name != row[b].name
  }

  // ---------------------------------------------------------------------------
  // Settings

  const BatchSize: nat := 15
  const MaxRetries: nat := 3

  /** The columns whose text is translated. */
  const TranslateFields: seq<string> := [
    "name", "description", "description_short", "meta_title", "meta_description",
    "content", "legend", "title", "value", "public_name", "head_seo_title"
  ]

  // ---------------------------------------------------------------------------
  // The field filter

  /** The ASCII characters Python's `str.strip()` removes. */
  predicate IsSpace(c: char)
  {
    c == ' ' || 9 <= c as int <= 13 || 28 <= c as int <= 31
  }

  function TrimStart(s: string): string
  {
    if s != [] && IsSpace(s[0]) then TrimStart(s[1..]) else s
  }

  function TrimEnd(s: string): string
  {
    if s != [] && IsSpace(s[|s| - 1]) then TrimEnd(s[..|s| - 1]) else s
  }

  /** Python `s.strip()`. */
  function Strip(s: string): string
  {
    TrimEnd(TrimStart(s))
  }

  /** Python `s.replace(".", "")`. */
  function RemoveDots(s: string): string
  {
    if s == [] then []
    else (if s[0] == '.' then [] else [s[0]]) + RemoveDots(s[1..])
  }

  predicate IsDigitChar(c: char)
  {
    '0' <= c <= '9'
  }

  /** Python `s.isdigit()`: not empty, and digits only. */
  predicate IsDigits(s: string)
  {
    |s| > 0 && forall i :: 0 <= i < |s| ==> IsDigitChar(s[i])
  }

  /**
   * A column is collected when it is one of the translated columns and holds a string
   * of more than one character once stripped, which is neither a link (`http...`) nor
   * a number (digits, once the dots are removed).
   */
  predicate Collectable(name: string, v: Value)
  {
    && name in TranslateFields
    && v.Str?
    && |Strip(v.s)| > 1
    && !("http" <= v.s)
    && !IsDigits(RemoveDots(v.s))
  }

  // ---------------------------------------------------------------------------
  // Keys

  /** Where a collected text sits: table name, row index and column name. */
  datatype Cell = Cell(table: string, row: nat, field: string)

  /** A collected text and its cell. */
  datatype Item = Item(cell: Cell, text: string)

  function DigitChar(d: nat): char
    requires d < 10
  {
    ('0' as int + d) as char
  }

  /** Python `str(n)` for a natural number. */
  function NatToString(n: nat): string
  {
    if n < 10 then [DigitChar(n)] else NatToString(n / 10) + [DigitChar(n % 10)]
  }

  /** The key `"<table>::<row>::<field>"` a collected text is sent and answered under. */
  function KeyOf(c: Cell): string
  {
    c.table + "::" + NatToString(c.row) + "::" + c.field
  }

  // ---------------------------------------------------------------------------
  // Collection, in the order of the dump

  /** The collected texts of one row, in column order. */
  function FieldItems(table: string, r: nat, fields: seq<Field>): seq<Item>
  {
    if fields == [] then []
    else
      var f := fields[|fields| - 1];
      FieldItems(table, r, fields[..|fields| - 1]) +
        (if Collectable(f.name, f.value) then [Item(Cell(table, r, f.name), f.value.s)] else [])
  }

  /** The collected texts of a table's rows, row by row. */
  function RowItems(table: string, rows: seq<Row>): seq<Item>
  {
    if rows == [] then []
    else RowItems(table, rows[..|rows| - 1]) + FieldItems(table, |rows| - 1, rows[|rows| - 1])
  }

  /** A table without rows contributes nothing. */
  function TableItems(t: Table): seq<Item>
  {
    if t.rows.Some? then RowItems(t.name, t.rows.value) else []
  }

  /** The collected texts of the dump, table by table: `batch_buffer` and `mapping` in insertion order. */
  function DocItems(data: Document): seq<Item>
  {
    if data == [] then []
    else DocItems(data[..|data| - 1]) + TableItems(data[|data| - 1])
  }

  /** The `mapping` dictionary: each key to its cell, later insertions winning. */
  function Mapping(items: seq<Item>): map<string, Cell>
  {
    if items == [] then map[]
    else
      var it := items[|items| - 1];
      Mapping(items[..|items| - 1])[KeyOf(it.cell) := it.cell]
  }

  /** The dictionary of key and text sent for one batch. */
  function BatchOf(chunk: seq<Item>): (b: seq<(string, string)>)
    ensures |b| == |chunk|
  {
    if chunk == [] then []
    else BatchOf(chunk[..|chunk| - 1]) + [(KeyOf(chunk[|chunk| - 1].cell), chunk[|chunk| - 1].text)]
  }

  // ---------------------------------------------------------------------------
  // Batching

  /** The keys in order, cut into batches of `BatchSize`. */
  function Chunks<T>(s: seq<T>): seq<seq<T>>
    decreases |s|
  {
    if s == [] then []
    else if |s| <= BatchSize then [s]
    else [s[..BatchSize]] + Chunks(s[BatchSize..])
  }

  // ---------------------------------------------------------------------------
  // The translation service

  /**
   * The service: asked for a batch on a given attempt, it answers a JSON object of key
   * and value, or fails (a rate limit, a network error, an answer that is not JSON).
   */
  type Client = (seq<(string, string)>, nat) -> Option<seq<(string, Value)>>

  /** The first answer from attempt `attempt` on, or `{}` when every remaining attempt fails. */
  function Answer(client: Client, batch: seq<(string, string)>, attempt: nat): seq<(string, Value)>
    decreases MaxRetries - attempt
  {
    if attempt >= MaxRetries then []
    else match client(batch, attempt)
      case Some(r) => r
      case None => Answer(client, batch, attempt + 1)
  }

  /** `translate_batch`: nothing to ask for an empty batch, else the first of `MaxRetries` attempts that answers. */
  function Translation(client: Client, batch: seq<(string, string)>): seq<(string, Value)>
  {
    if batch == [] then [] else Answer(client, batch, 0)
  }

  /** `translate_batch`, attempt by attempt. */
  method TranslateBatch(client: Client, batch: seq<(string, string)>) returns (results: seq<(string, Value)>)
    ensures results == Translation(client, batch)
  {
    if batch == [] {
      return [];
    }
    var attempt := 0;
    while attempt < MaxRetries
      invariant 0 <= attempt <= MaxRetries
      invariant Answer(client, batch, attempt) == Answer(client, batch, 0)
    {
      var reply := client(batch, attempt);
      if reply.Some? {
        return reply.value;
      }
      attempt := attempt + 1;
    }
    return [];
  }

  // ---------------------------------------------------------------------------
  // Write-back

  /** `row[f] = v` for an existing column `f`. */
  function SetField(fields: seq<Field>, name: string, v: Value): (r: seq<Field>)
    ensures |r| == |fields|
  {
    if fields == [] then []
    else
      var f := fields[|fields| - 1];
      SetField(fields[..|fields| - 1], name, v) + [if f.name == name then Field(name, v) else f]
  }

  /** `rows[r][f] = v` for an existing row `r`. */
  function SetRow(rows: seq<Row>, r: nat, name: string, v: Value): (res: seq<Row>)
    ensures |res| == |rows|
  {
    if r < |rows| then rows[r := SetField(rows[r], name, v)] else rows
  }

  /** `data[t]["rows"][r][f] = v`. */
  function SetCell(doc: Document, c: Cell, v: Value): (res: Document)
    ensures |res| == |doc|
  {
    if doc == [] then []
    else
      var t := doc[|doc| - 1];
      SetCell(doc[..|doc| - 1], c, v) +
        [if t.name == c.table && t.rows.Some? then t.(rows := Some(SetRow(t.rows.value, c.row, c.field, v))) else t]
  }

  /** Writing one batch's answers in order: known keys with a truthy value only. */
  function Apply(doc: Document, mapping: map<string, Cell>, results: seq<(string, Value)>): Document
  {
    if results == [] then doc
    else
      var (k, v) := results[|results| - 1];
      var d := Apply(doc, mapping, results[..|results| - 1]);
      if k in mapping && Truthy(v) then SetCell(d, mapping[k], v) else d
  }

  /** The batches sent in order, each answer written back before the next batch is sent. */
  function ApplyBatches(doc: Document, mapping: map<string, Cell>, client: Client, chunks: seq<seq<Item>>): Document
  {
    if chunks == [] then doc
    else
      var d := ApplyBatches(doc, mapping, client, chunks[..|chunks| - 1]);
      Apply(d, mapping, Translation(client, BatchOf(chunks[|chunks| - 1])))
  }

  /** The dump once `process_translation` is done with it. */
  function Translated(data: Document, client: Client): Document
  {
    var items := DocItems(data);
    ApplyBatches(data, Mapping(items), client, Chunks(items))
  }

  // ---------------------------------------------------------------------------
  // The script

  /** The collection loops of `process_translation`: `batch_buffer` and `mapping`. */
  method CollectItems(data: Document) returns (items: seq<Item>, mapping: map<string, Cell>)
    ensures items == DocItems(data) && mapping == Mapping(items)
  {
    items, mapping := [], map[];
    var i := 0;
    while i < |data|
      invariant 0 <= i <= |data|
      invariant items == DocItems(data[..i]) && mapping == Mapping(items)
    {
      assert data[..i + 1][..i] == data[..i];
      if data[i].rows.Some? {
        items, mapping := CollectRows(items, mapping, data[i].name, data[i].rows.value);
      }
      i := i + 1;
    }
    assert data[..i] == data;
  }

  /** The rows of one table, in order. */
  method CollectRows(items0: seq<Item>, mapping0: map<string, Cell>, table: string, rows: seq<Row>)
    returns (items: seq<Item>, mapping: map<string, Cell>)
    requires mapping0 == Mapping(items0)
    ensures items == items0 + RowItems(table, rows) && mapping == Mapping(items)
  {
    items, mapping := items0, mapping0;
    var r := 0;
    while r < |rows|
      invariant 0 <= r <= |rows|
      invariant items == items0 + RowItems(table, rows[..r]) && mapping == Mapping(items)
    {
      RowStep(items0, table, rows, r);
      items, mapping := CollectFields(items, mapping, table, r, rows[r]);
      r := r + 1;
    }
    assert rows[..r] == rows;
  }

  /** The columns of one row, in order. */
  method CollectFields(items0: seq<Item>, mapping0: map<string, Cell>, table: string, r: nat, row: Row)
    returns (items: seq<Item>, mapping: map<string, Cell>)
    requires mapping0 == Mapping(items0)
    ensures items == items0 + FieldItems(table, r, row) && mapping == Mapping(items)
  {
    items, mapping := items0, mapping0;
    var k := 0;
    while k < |row|
      invariant 0 <= k <= |row|
      invariant items == items0 + FieldItems(table, r, row[..k]) && mapping == Mapping(items)
    {
      FieldStep(items0, table, r, row, k);
      var f := row[k];
      if Collectable(f.name, f.value) {
        var cell := Cell(table, r, f.name);
        var it := Item(cell, f.value.s);
        MappingSnoc(items, it);
        items := items + [it];
        mapping := mapping[KeyOf(cell) := cell];
      }
      k := k + 1;
    }
    assert row[..k] == row;
  }

  /** One more row of a table: its collected texts follow those of the rows before it. */
  lemma RowStep(items0: seq<Item>, table: string, rows: seq<Row>, r: nat)
    requires r < |rows|
    ensures items0 + RowItems(table, rows[..r + 1]) == items0 + RowItems(table, rows[..r]) + FieldItems(table, r, rows[r])
  {
    assert rows[..r + 1][..r] == rows[..r];
  }

  /** One more column of a row: its text follows the others when it is collected. */
  lemma FieldStep(items0: seq<Item>, table: string, r: nat, row: Row, k: nat)
    requires k < |row|
    ensures items0 + FieldItems(table, r, row[..k + 1]) ==
      items0 + FieldItems(table, r, row[..k]) +
        (if Collectable(row[k].name, row[k].value) then [Item(Cell(table, r, row[k].name), row[k].value.s)] else [])
  {
    assert row[..k + 1][..k] == row[..k];
  }

  /** Adding an item to the buffer adds its key to the mapping. */
  lemma MappingSnoc(items: seq<Item>, it: Item)
    ensures Mapping(items + [it]) == Mapping(items)[KeyOf(it.cell) := it.cell]
  {
    assert (items + [it])[..|items|] == items;
  }

  /** The write-back loop over one batch's answers. */
  method ApplyResults(doc: Document, mapping: map<string, Cell>, results: seq<(string, Value)>) returns (out: Document)
    ensures out == Apply(doc, mapping, results)
  {
    out := doc;
    var j := 0;
    while j < |results|
      invariant 0 <= j <= |results|
      invariant out == Apply(doc, mapping, results[..j])
    {
      assert results[..j + 1][..j] == results[..j];
      var (k, v) := results[j];
      if k in mapping && Truthy(v) {
        out := SetCell(out, mapping[k], v);
      }
      j := j + 1;
    }
    assert results[..j] == results;
  }

  /**
   * `process_translation` without its file and console I/O: collect, then send the keys
   * in order, flushing a batch when it holds `BatchSize` keys or the last key is added.
   */
  method ProcessTranslation(data: Document, client: Client) returns (out: Document)
    ensures out == Translated(data, client)
  {
    var items, mapping := CollectItems(data);
    out := SendAll(data, mapping, client, items);
  }

  /** The batching loop of `process_translation`: the keys in order, flushed every `BatchSize` and at the last. */
  method SendAll(data: Document, mapping: map<string, Cell>, client: Client, items: seq<Item>) returns (out: Document)
    ensures out == ApplyBatches(data, mapping, client, Chunks(items))
  {
    out := data;
    var current: seq<Item> := [];
    ghost var done: seq<Item> := [];
    var i := 0;
    while i < |items|
      invariant 0 <= i <= |items|
      invariant items[..i] == done + current
      invariant |current| < BatchSize
      invariant i < |items| ==> |done| % BatchSize == 0
      invariant i == |items| ==> current == []
      invariant out == ApplyBatches(data, mapping, client, Chunks(done))
    {
      PrefixGrows(items, i, done, current);
      done, current, out := Push(data, mapping, client, done, current, out, items[i], i == |items| - 1);
      i := i + 1;
    }
    assert items[..i] == items;
  }

  /**
   * One turn of the batching loop: add `key` to the open batch, and flush it when it is
   * full or `key` is the last one.
   */
  method Push(data: Document, mapping: map<string, Cell>, client: Client, ghost done: seq<Item>,
              current: seq<Item>, out: Document, key: Item, last: bool)
    returns (ghost done': seq<Item>, current': seq<Item>, out': Document)
    requires |done| % BatchSize == 0 && |current| < BatchSize
    requires out == ApplyBatches(data, mapping, client, Chunks(done))
    ensures done' + current' == done + current + [key]
    ensures |current'| < BatchSize
    ensures !last ==> |done'| % BatchSize == 0
    ensures last ==> current' == []
    ensures out' == ApplyBatches(data, mapping, client, Chunks(done'))
  {
    done', current', out' := done, current + [key], out;
    if |current'| >= BatchSize || last {
      out' := SendBatch(data, mapping, client, done, current', out);
      AddFullBatch(|done|);
      assert done + current' + [] == done + current';
      done', current' := done + current', [];
    }
  }

  /**
   * One flush: send the current batch and write its answers back. The batches sent
   * before it cover `done`, a whole number of full batches.
   */
  method SendBatch(data: Document, mapping: map<string, Cell>, client: Client, ghost done: seq<Item>,
                   current: seq<Item>, doc: Document)
    returns (out: Document)
    requires |done| % BatchSize == 0 && 0 < |current| <= BatchSize
    requires doc == ApplyBatches(data, mapping, client, Chunks(done))
    ensures out == ApplyBatches(data, mapping, client, Chunks(done + current))
  {
    var results := TranslateBatch(client, BatchOf(current));
    out := ApplyResults(doc, mapping, results);
    ChunksAppend(done, current);
    var chunks := Chunks(done) + [current];
    assert chunks[..|chunks| - 1] == Chunks(done);
  }

  /** One more key: the keys seen so far still split into the flushed ones and the open batch. */
  lemma PrefixGrows<T>(items: seq<T>, i: nat, done: seq<T>, current: seq<T>)
    requires i < |items| && items[..i] == done + current
    ensures items[..i + 1] == done + current + [items[i]]
  {
    assert items[..i + 1] == items[..i] + [items[i]];
  }

  /** Appending a batch of at most `BatchSize` to a whole number of full batches adds it as the last batch. */
  lemma {:induction false} ChunksAppend<T>(prefix: seq<T>, chunk: seq<T>)
    requires |prefix| % BatchSize == 0 && 0 < |chunk| <= BatchSize
    ensures Chunks(prefix + chunk) == Chunks(prefix) + [chunk]
    decreases |prefix|
  {
    if prefix == [] {
      assert prefix + chunk == chunk;
    } else {
      var rest := prefix[BatchSize..];
      var s := prefix + chunk;
      assert s[..BatchSize] == prefix[..BatchSize];
      assert s[BatchSize..] == rest + chunk;
      ChunksAppend(rest, chunk);
      if |prefix| == BatchSize {
        assert rest + chunk == chunk;
      }
    }
  }

  lemma AddFullBatch(m: nat)
    ensures (m + BatchSize) % BatchSize == m % BatchSize
  {
  }
}

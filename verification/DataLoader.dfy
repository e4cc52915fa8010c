/** The entity helpers of data_loader.py: splitting a multi-valued cell
    (a semicolon-separated speaker or location list) into entities, counting
    entities over a column, and collecting the distinct ones. */
module DataLoader {
  import opened Collections
  import opened Text
  import opened Frames

  const DEFAULT_SEPARATOR: string := ";"

  /** Tokens containing this marker are dropped. */
  const DROP_MARKER: string := "##"

  /** Python's `str.split` raises ValueError for an empty separator. */
  datatype EntityError = EmptySeparator

  /** A loaded sheet: its columns by header name. */
  datatype Frame = Frame(columns: map<string, seq<Cell>>)

  function StripAll(tokens: seq<string>): (r: seq<string>)
    ensures |r| == |tokens|
    ensures forall k :: 0 <= k < |r| ==> r[k] == Strip(tokens[k])
  {
    seq(|tokens|, k requires 0 <= k < |tokens| => Strip(tokens[k]))
  }

  predicate Unmarked(entity: string)
  {
    IndexOf(entity, DROP_MARKER) < 0
  }

  /** Stripping the tokens and dropping the marked ones keeps exactly the
      stripped tokens that do not contain the marker, in order and as often
      as they occur. */
  lemma KeptEntities(tokens: seq<string>)
    ensures var kept := Filter(Unmarked, StripAll(tokens));
      && IsSubsequence(kept, StripAll(tokens))
      && (forall e :: multiset(kept)[e] == if Unmarked(e) then multiset(StripAll(tokens))[e] else 0)
      && (forall e :: e in kept ==> Trimmed(e) && !Contains(e, DROP_MARKER))
      && (forall e :: e in kept <==> (exists t :: t in tokens && Strip(t) == e) && !Contains(e, DROP_MARKER))
  {
    var stripped := StripAll(tokens);
    FilterMultiset(Unmarked, stripped);
    forall e ensures e in stripped <==> exists t :: t in tokens && Strip(t) == e {
      if e in stripped {
        var k :| 0 <= k < |stripped| && stripped[k] == e;
        assert tokens[k] in tokens;
      }
      if exists t :: t in tokens && Strip(t) == e {
        var t :| t in tokens && Strip(t) == e;
        var k :| 0 <= k < |tokens| && tokens[k] == t;
        assert stripped[k] == e;
      }
    }
  }

  /** `process_entities(cell_value, separator)`: a missing cell gives no
      entities; otherwise the cell is split on the separator, every token is
      stripped, and the tokens containing "##" are dropped. Empty tokens are
      kept. */
  function ProcessEntities(cell: Cell, separator: string): (r: Result<seq<string>, EntityError>)
    ensures cell.None? ==> r == Ok([])
    ensures cell.Some? && separator == "" ==> r == Err(EmptySeparator)
    ensures cell.Some? && separator != "" ==>
      && r.Ok?
      && |r.value| <= |Split(cell.value, separator)|
  {
    match cell
    case None => Ok([])
    case Some(text) =>
      if separator == "" then Err(EmptySeparator)
      else
        var tokens := Split(text, separator);
        Ok(Filter(Unmarked, StripAll(tokens)))
  }

  /** The entities of a present cell are its stripped tokens without the
      marked ones, in token order, each as often as it occurs. */
  lemma ProcessEntitiesMembers(text: string, separator: string)
    requires separator != ""
    ensures var r := ProcessEntities(Some(text), separator).value;
      && IsSubsequence(r, StripAll(Split(text, separator)))
      && (forall e :: multiset(r)[e] == if Unmarked(e) then multiset(StripAll(Split(text, separator)))[e] else 0)
      && (forall e :: e in r ==> Trimmed(e) && !Contains(e, DROP_MARKER))
      && (forall e :: e in r <==>
            (exists t :: t in Split(text, separator) && Strip(t) == e) && !Contains(e, DROP_MARKER))
  {
    KeptEntities(Split(text, separator));
  }

  /** `process_entities(cell)`, with the default separator. */
  function Entities(cell: Cell): seq<string>
  {
    ProcessEntities(cell, DEFAULT_SEPARATOR).value
  }

  /** With a one-character separator there are at most as many entities as
      separators plus one. */
  lemma EntityCountBound(text: string, c: char)
    ensures |ProcessEntities(Some(text), [c]).value| <= multiset(text)[c] + 1
  {
    SplitCharCount(text, c);
  }

  /** When every token is already stripped and free of the marker, the
      entities are exactly the tokens: none is dropped, empty ones included. */
  lemma {:induction false} CleanTokensKept(tokens: seq<string>)
    requires forall t :: t in tokens ==> Trimmed(t) && Unmarked(t)
    ensures Filter(Unmarked, StripAll(tokens)) == tokens
  {
    forall k | 0 <= k < |tokens| ensures StripAll(tokens)[k] == tokens[k] {
      StripTrimmed(tokens[k]);
    }
    assert StripAll(tokens) == tokens;
    FilterKeepsAll(Unmarked, tokens);
  }

  lemma EmptyCellExample()
    ensures Split("", DEFAULT_SEPARATOR) == [""]
    ensures Unmarked("")
  {
    assert IndexOf("", DEFAULT_SEPARATOR) == -1;
    assert IndexOf("", DROP_MARKER) == -1;
  }

  /** An empty (but present) cell gives one empty entity, not none. */
  lemma ProcessEntitiesEmptyText()
    ensures ProcessEntities(Some(""), DEFAULT_SEPARATOR) == Ok([""])
  {
    EmptyCellExample();
    CleanTokensKept([""]);
  }

  lemma SplitEmptyTokenExample(text: string)
    requires text == "a;;b"
    ensures Split(text, DEFAULT_SEPARATOR) == ["a", "", "b"]
  {
    IndexOfFirstChar(text, ';', 1);
    assert text[..1] == "a";
    var rest := text[2..];
    assert rest == ";b";
    IndexOfFirstChar(rest, ';', 0);
    var last := rest[1..];
    assert last == "b";
    ContainsChar(last, ';');
    assert Split(last, DEFAULT_SEPARATOR) == ["b"];
    assert Split(rest, DEFAULT_SEPARATOR) == [""] + Split(last, DEFAULT_SEPARATOR);
    assert Split(text, DEFAULT_SEPARATOR) == ["a"] + Split(rest, DEFAULT_SEPARATOR);
  }

  /** Empty tokens survive: "a;;b" gives ["a", "", "b"]. */
  lemma ProcessEntitiesKeepsEmptyToken(text: string)
    requires text == "a;;b"
    ensures ProcessEntities(Some(text), DEFAULT_SEPARATOR) == Ok(["a", "", "b"])
  {
    SplitEmptyTokenExample(text);
    assert IndexOf("a", DROP_MARKER) == -1 && IndexOf("b", DROP_MARKER) == -1;
    EmptyCellExample();
    CleanTokensKept(["a", "", "b"]);
  }

  /** The entities of all the cells of a column, cell by cell, in order
      (missing cells contribute none). */
  function ColumnEntities(cells: seq<Cell>): seq<string>
  {
    FlatMap(Entities, cells)
  }

  /** `process_dataset(df, column_name)`: the frame unchanged, with the
      number of occurrences of each entity over the column, most frequent
      first. A missing column gives no counts. */
  method ProcessDataset(df: Frame, column: string) returns (result: Frame, counts: seq<(string, nat)>)
    ensures result == df
    ensures column !in df.columns ==> counts == []
    ensures column in df.columns ==>
      var all := ColumnEntities(df.columns[column]);
      && NoDuplicates(Labels(counts))
      && SortedDescending(counts, Frequency)
      && (forall e :: e in Labels(counts) <==> e in all)
      && (forall entry :: entry in counts ==> entry.1 == multiset(all)[entry.0])
      && KeySum(counts, Frequency) == |all|
  {
    result := df;
    if column !in df.columns {
      counts := [];
      return;
    }
    var cells := df.columns[column];
    var allEntities: seq<string> := [];
    for i := 0 to |cells|
      invariant allEntities == ColumnEntities(cells[..i])
    {
      assert cells[..i + 1][..i] == cells[..i];
      allEntities := allEntities + Entities(cells[i]);
    }
    assert cells[..|cells|] == cells;
    counts := ValueCounts(allEntities);
  }

  /** `get_unique_locations(df, location_column)`: the distinct entities of
      the non-missing cells of the column, each once, in no particular order.
      A missing column gives none. */
  method GetUniqueLocations(df: Frame, column: string) returns (locations: seq<string>)
    ensures column !in df.columns ==> locations == []
    ensures NoDuplicates(locations)
    ensures column in df.columns ==>
      forall e :: e in locations <==> exists c :: c in df.columns[column] && c.Some? && e in Entities(c)
  {
    if column !in df.columns {
      return [];
    }
    var cells := df.columns[column];
    var found: seq<string> := [];
    for i := 0 to |cells|
      invariant found == ColumnEntities(cells[..i])
    {
      assert cells[..i + 1][..i] == cells[..i];
      if cells[i].None? {
        assert Entities(cells[i]) == [];
        continue;
      }
      found := found + Entities(cells[i]);
    }
    assert cells[..|cells|] == cells;
    forall e ensures e in found <==> exists c :: c in cells && c.Some? && e in Entities(c) {
      FlatMapMembers(Entities, cells, e);
    }
    locations := Distinct(found);
  }
}

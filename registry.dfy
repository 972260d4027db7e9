/**
 * The corpus registry: the parsed corpus list, lookup by shortname, and the
 * `list` command's table with its comma-separated column filters.
 */
module Registry {
  import opened Wrappers
  import opened Strings

  /** One retrievable artifact of a corpus: a markup tag, a file format and a URL. */
  datatype Variant = Variant(markup: string, format: string, url: string)

  /** The three shapes a corpus's `text` entry can take. */
  datatype Text =
    | Alternatives(variants: seq<Variant>)                   // a list of markup variants
    | Mirrors(markup: string, format: string, urls: seq<string>) // one variant whose `url` is a list
    | Single(variant: Variant)                                // one variant with one URL

  /** One entry of the corpus list; a cell that is missing or null is `None`. */
  datatype CorpusRecord = CorpusRecord(
    shortname: string,
    title: Option<string>,
    centuries: Option<string>,
    categories: Option<string>,
    text: Text)

  /** A row of the table the `list` command shows: the shortname index and the displayed fields. */
  datatype Listing = Listing(
    shortname: string,
    title: Option<string>,
    centuries: Option<string>,
    categories: Option<string>)

  datatype Column = Title | Centuries | Categories

  function Cell(row: Listing, column: Column): Option<string>
  {
    match column
    case Title => row.title
    case Centuries => row.centuries
    case Categories => row.categories
  }

  /** `corpusListDF[fields]` for the fields title, centuries and categories. */
  function Project(registry: seq<CorpusRecord>): (table: seq<Listing>)
    ensures |table| == |registry|
    ensures forall i :: 0 <= i < |registry| ==>
      table[i].shortname == registry[i].shortname && table[i].title == registry[i].title &&
      table[i].centuries == registry[i].centuries && table[i].categories == registry[i].categories
  {
    seq(|registry|, i requires 0 <= i < |registry| =>
      Listing(registry[i].shortname, registry[i].title, registry[i].centuries, registry[i].categories))
  }

  /** `a` is `b` with some elements left out, the others kept in order. */
  ghost predicate IsSubsequence<T>(a: seq<T>, b: seq<T>)
    decreases |b|
  {
    |a| <= |b| &&
    (a == [] || (a[0] == b[0] && IsSubsequence(a[1..], b[1..])) || IsSubsequence(a, b[1..]))
  }

  lemma {:induction false} SubsequenceTransitive<T>(a: seq<T>, b: seq<T>, c: seq<T>)
    requires IsSubsequence(a, b) && IsSubsequence(b, c)
    ensures IsSubsequence(a, c)
    decreases |c|
  {
    if a != [] {
      if b[0] == c[0] && IsSubsequence(b[1..], c[1..]) {
        if a[0] == b[0] && IsSubsequence(a[1..], b[1..]) {
          SubsequenceTransitive(a[1..], b[1..], c[1..]);
        } else {
          SubsequenceTransitive(a, b[1..], c[1..]);
        }
      } else {
        SubsequenceTransitive(a, b, c[1..]);
      }
    }
  }

  lemma {:induction false} SubsequenceReflexive<T>(a: seq<T>)
    ensures IsSubsequence(a, a)
    decreases |a|
  {
    if a != [] {
      SubsequenceReflexive(a[1..]);
    }
  }

  /** The cell contains at least one of the values as a substring (the `|`-joined pattern matches). */
  predicate AnyContains(cell: string, values: seq<string>)
    decreases |values|
  {
    |values| > 0 && (Contains(cell, values[0]) || AnyContains(cell, values[1..]))
  }

  /** The alternatives are tried as an OR: some value occurs in the cell. */
  lemma {:induction false} AnyContainsIff(cell: string, values: seq<string>)
    ensures AnyContains(cell, values) <==> exists i :: 0 <= i < |values| && Contains(cell, values[i])
    decreases |values|
  {
    if |values| > 0 {
      AnyContainsIff(cell, values[1..]);
      assert forall i :: 1 <= i < |values| ==> values[i] == values[1..][i - 1];
      if exists i :: 0 <= i < |values| && Contains(cell, values[i]) {
        var i :| 0 <= i < |values| && Contains(cell, values[i]);
        if i > 0 {
          assert Contains(cell, values[1..][i - 1]);
        }
      }
    }
  }

  /** The row's cell in `column` is present and contains one of `values`. */
  predicate Matches(row: Listing, column: Column, values: seq<string>)
  {
    Cell(row, column).Some? && AnyContains(Cell(row, column).value, values)
  }

  /** The rows of `rows` that match, in their order: the boolean mask of `str.contains(..., na=False)`. */
  function Where(rows: seq<Listing>, column: Column, values: seq<string>): seq<Listing>
    decreases |rows|
  {
    if rows == [] then []
    else if Matches(rows[0], column, values) then [rows[0]] + Where(rows[1..], column, values)
    else Where(rows[1..], column, values)
  }

  /** `Where` keeps exactly the matching rows, in their original order. */
  lemma {:induction false} WhereKeeps(rows: seq<Listing>, column: Column, values: seq<string>)
    ensures forall x :: x in Where(rows, column, values) <==> x in rows && Matches(x, column, values)
    ensures IsSubsequence(Where(rows, column, values), rows)
    decreases |rows|
  {
    if rows != [] {
      WhereKeeps(rows[1..], column, values);
      assert forall x :: x in rows <==> x == rows[0] || x in rows[1..];
    }
  }

  /**
   * `filterCorpusList`: keeps exactly the rows whose cell in `column` contains, as a
   * substring, at least one of the comma-separated `values`; rows whose cell is
   * missing are dropped; the kept rows stay in their original order.
   */
  function FilterCorpusList(rows: seq<Listing>, column: Column, values: string): (kept: seq<Listing>)
    ensures forall x :: x in kept <==> x in rows && Matches(x, column, Split(values, ','))
    ensures forall i :: 0 <= i < |kept| ==> Cell(kept[i], column).Some?
    ensures IsSubsequence(kept, rows)
  {
    var kept := Where(rows, column, Split(values, ','));
    WhereKeeps(rows, column, Split(values, ','));
    assert forall i :: 0 <= i < |kept| ==> kept[i] in kept;
    kept
  }

  /** A table filtered by the optional argument, unchanged when the argument is absent. */
  function Narrow(table: seq<Listing>, column: Column, values: Option<string>): seq<Listing>
  {
    if values.Some? then FilterCorpusList(table, column, values.value) else table
  }

  /** The row satisfies the optional filter (an absent filter admits every row). */
  predicate Admits(row: Listing, column: Column, values: Option<string>)
  {
    values.Some? ==> Matches(row, column, Split(values.value, ','))
  }

  /**
   * `showCorpusList`: the projected table narrowed first by centuries and then by
   * categories. A row is shown exactly when it satisfies both given filters; the
   * result is an order-preserving subsequence of the table; with no filters the
   * table is shown whole.
   */
  function ShowCorpusList(registry: seq<CorpusRecord>, centuries: Option<string>, categories: Option<string>): (shown: seq<Listing>)
    ensures forall x :: x in shown <==>
      x in Project(registry) && Admits(x, Centuries, centuries) && Admits(x, Categories, categories)
    ensures IsSubsequence(shown, Project(registry))
    ensures centuries.None? && categories.None? ==> shown == Project(registry)
  {
    var table := Project(registry);
    var byCenturies := Narrow(table, Centuries, centuries);
    var shown := Narrow(byCenturies, Categories, categories);
    SubsequenceReflexive(table);
    SubsequenceReflexive(byCenturies);
    SubsequenceTransitive(shown, byCenturies, table);
    shown
  }

  lemma WhereCons(x: Listing, t: seq<Listing>, column: Column, values: seq<string>)
    ensures Where([x] + t, column, values) ==
      if Matches(x, column, values) then [x] + Where(t, column, values) else Where(t, column, values)
  {
    assert ([x] + t)[0] == x;
    assert ([x] + t)[1..] == t;
  }

  /** Filtering distributes over concatenation of tables. */
  lemma {:induction false} WhereConcat(a: seq<Listing>, b: seq<Listing>, column: Column, values: seq<string>)
    ensures Where(a + b, column, values) == Where(a, column, values) + Where(b, column, values)
    decreases |a|
  {
    if a == [] {
      assert a + b == b;
    } else {
      var x, t := a[0], a[1..];
      WhereConcat(t, b, column, values);
      assert a == [x] + t;
      assert a + b == [x] + (t + b);
      WhereCons(x, t + b, column, values);
      WhereCons(x, t, column, values);
      if Matches(x, column, values) {
        assert [x] + (Where(t, column, values) + Where(b, column, values)) ==
          ([x] + Where(t, column, values)) + Where(b, column, values);
      }
    }
  }

  /** The order of two filters does not matter: centuries-then-categories equals categories-then-centuries. */
  lemma {:induction false} FilterCommutes(rows: seq<Listing>, c1: Column, v1: string, c2: Column, v2: string)
    ensures FilterCorpusList(FilterCorpusList(rows, c1, v1), c2, v2) ==
            FilterCorpusList(FilterCorpusList(rows, c2, v2), c1, v1)
  {
    WhereCommutes(rows, c1, Split(v1, ','), c2, Split(v2, ','));
  }

  lemma {:induction false} WhereCommutes(rows: seq<Listing>, c1: Column, v1: seq<string>, c2: Column, v2: seq<string>)
    ensures Where(Where(rows, c1, v1), c2, v2) == Where(Where(rows, c2, v2), c1, v1)
    decreases |rows|
  {
    if rows != [] {
      WhereCommutes(rows[1..], c1, v1, c2, v2);
      var head := [rows[0]];
      assert rows == head + rows[1..];
      WhereConcat(head, rows[1..], c1, v1);
      WhereConcat(head, rows[1..], c2, v2);
      WhereConcat(Where(head, c1, v1), Where(rows[1..], c1, v1), c2, v2);
      WhereConcat(Where(head, c2, v2), Where(rows[1..], c2, v2), c1, v1);
      assert head[1..] == [];
    }
  }

  /** Filtering twice by the same column and values changes nothing the second time. */
  lemma {:induction false} FilterIdempotent(rows: seq<Listing>, column: Column, values: string)
    ensures FilterCorpusList(FilterCorpusList(rows, column, values), column, values) ==
            FilterCorpusList(rows, column, values)
  {
    WhereIdempotent(rows, column, Split(values, ','));
  }

  lemma {:induction false} WhereIdempotent(rows: seq<Listing>, column: Column, values: seq<string>)
    ensures Where(Where(rows, column, values), column, values) == Where(rows, column, values)
    decreases |rows|
  {
    if rows != [] {
      WhereIdempotent(rows[1..], column, values);
      var head := [rows[0]];
      assert rows == head + rows[1..];
      WhereConcat(head, rows[1..], column, values);
      WhereConcat(Where(head, column, values), Where(rows[1..], column, values), column, values);
      assert head[1..] == [];
    }
  }

  /** Every corpus has its own shortname (the index of the corpus list). */
  ghost predicate UniqueShortnames(registry: seq<CorpusRecord>)
  {
    forall i, j :: 0 <= i < j < |registry| ==> registry[i].shortname != registry[j].shortname
  }

  /**
   * The corpus filed under `shortname`: the first record with that shortname, or
   * `None` exactly when no record has it.
   */
  function Lookup(registry: seq<CorpusRecord>, shortname: string): (found: Option<CorpusRecord>)
    ensures found.None? <==> forall i :: 0 <= i < |registry| ==> registry[i].shortname != shortname
    ensures found.Some? ==> found.value.shortname == shortname
    ensures found.Some? ==> exists i :: (0 <= i < |registry| && registry[i] == found.value &&
      forall j :: 0 <= j < i ==> registry[j].shortname != shortname)
    decreases |registry|
  {
    if registry == [] then None
    else if registry[0].shortname == shortname then
      Some(registry[0])
    else
      var found := Lookup(registry[1..], shortname);
      assert forall i :: 1 <= i < |registry| ==> registry[i] == registry[1..][i - 1];
      if found.Some? then
        var k :| 0 <= k < |registry[1..]| && registry[1..][k] == found.value &&
          forall j :: 0 <= j < k ==> registry[1..][j].shortname != shortname;
        assert registry[k + 1] == found.value;
        found
      else found
  }

  /** With unique shortnames, looking up any record's shortname gives back that very record. */
  lemma LookupUnique(registry: seq<CorpusRecord>, i: nat)
    requires UniqueShortnames(registry)
    requires i < |registry|
    ensures Lookup(registry, registry[i].shortname) == Some(registry[i])
  {
    var found := Lookup(registry, registry[i].shortname);
    var k :| 0 <= k < |registry| && registry[k] == found.value &&
      forall j :: 0 <= j < k ==> registry[j].shortname != registry[i].shortname;
    assert k == i;
  }
}

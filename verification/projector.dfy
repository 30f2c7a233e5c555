/**
 The column projector of `useless_process_csv.py`: a keyword found in the file
 name selects a configured column list (with a `default` fallback), and the
 file is reduced to the requested columns it actually has, in requested order.
 */
module Projector {
  import opened Table
  import opened Text

  /** The keywords `get_file_keyword` looks for, in the order it tries them. */
  const Keywords: seq<string> := [
    "L3M2能耗计量", "L3M1能耗计量", "L2M能耗计量", "L1M2能耗计量", "L1M1能耗计量",
    "B2能耗计量", "B1能耗计量", "L3能耗计量", "L2能耗计量", "L1能耗计量"
  ]

  // ----- file name to keyword -----

  /** `name.rfind('.')`: the position of the last dot, or -1. */
  function LastDot(name: string): (i: int)
    ensures -1 <= i < |name|
    ensures i >= 0 ==> name[i] == '.'
    ensures forall k :: i < k < |name| ==> name[k] != '.'
  {
    if name == [] then -1
    else if name[|name| - 1] == '.' then |name| - 1
    else LastDot(name[..|name| - 1])
  }

  /** `Path(name).stem` for a bare file name: the name without its last
      `.suffix`; a dot that leads the name or ends it starts no suffix. */
  function Stem(name: string): (r: string)
    ensures r <= name
    ensures r != name ==>
      && 0 < |r| < |name| - 1 && name[|r|] == '.'
      && forall k :: |r| < k < |name| ==> name[k] != '.'
    ensures r == name ==>
      || (name != [] && name[|name| - 1] == '.')
      || forall k :: 0 < k < |name| ==> name[k] != '.'
  {
    var i := LastDot(name);
    if 0 < i < |name| - 1 then name[..i] else name
  }

  /** The loop of `get_file_keyword`: the first keyword that occurs in the
      stem, else "default". */
  function FirstKeyword(keywords: seq<string>, stem: string): string {
    if keywords == [] then "default"
    else if Contains(stem, keywords[0]) then keywords[0]
    else FirstKeyword(keywords[1..], stem)
  }

  /** `keywords[i]` occurs in the stem and no keyword before it does. */
  ghost predicate EarliestOccurring(keywords: seq<string>, stem: string, i: int) {
    0 <= i < |keywords| && Contains(stem, keywords[i])
    && forall j :: 0 <= j < i ==> !Contains(stem, keywords[j])
  }

  /** The search returns the earliest keyword that occurs, and "default" when
      none occurs. */
  lemma {:induction false} FirstKeywordIsEarliest(keywords: seq<string>, stem: string)
    ensures (forall j :: 0 <= j < |keywords| ==> !Contains(stem, keywords[j])) ==>
      FirstKeyword(keywords, stem) == "default"
    ensures (exists j :: 0 <= j < |keywords| && Contains(stem, keywords[j])) ==>
      exists i :: EarliestOccurring(keywords, stem, i) && FirstKeyword(keywords, stem) == keywords[i]
    decreases |keywords|
  {
    if keywords != [] {
      var tail := keywords[1..];
      FirstKeywordIsEarliest(tail, stem);
      assert forall j :: 0 <= j < |tail| ==> tail[j] == keywords[j + 1];
      if Contains(stem, keywords[0]) {
        assert EarliestOccurring(keywords, stem, 0);
      } else if exists j :: 0 <= j < |keywords| && Contains(stem, keywords[j]) {
        var j :| 0 <= j < |keywords| && Contains(stem, keywords[j]);
        assert Contains(stem, tail[j - 1]);
        var i :| EarliestOccurring(tail, stem, i) && FirstKeyword(tail, stem) == tail[i];
        assert EarliestOccurring(keywords, stem, i + 1);
      }
    }
  }

  /** `get_file_keyword(filename)`. */
  function GetFileKeyword(filename: string): string {
    FirstKeyword(Keywords, Stem(filename))
  }

  /** The keyword is "default" exactly when no keyword occurs in the stem;
      otherwise it is the earliest listed keyword that occurs there. */
  lemma GetFileKeywordSpec(filename: string)
    ensures GetFileKeyword(filename) == "default" <==>
      forall k :: k in Keywords ==> !Contains(Stem(filename), k)
    ensures GetFileKeyword(filename) != "default" ==>
      exists i :: EarliestOccurring(Keywords, Stem(filename), i) && Keywords[i] == GetFileKeyword(filename)
  {
    var stem := Stem(filename);
    FirstKeywordIsEarliest(Keywords, stem);
    assert forall j :: 0 <= j < |Keywords| ==> Keywords[j] != "default" by {
      assert forall j :: 0 <= j < |Keywords| ==> Keywords[j][0] != 'd';
    }
    if exists k :: k in Keywords && Contains(stem, k) {
      var k :| k in Keywords && Contains(stem, k);
      var j :| 0 <= j < |Keywords| && Keywords[j] == k;
      assert Contains(stem, Keywords[j]);
    }
  }

  // ----- keyword to column list -----

  /** One entry of the keyword to column mapping; either key may be absent. */
  datatype Entry = Entry(columns: Option<seq<string>>, description: Option<string>)

  /** The column list chosen for a keyword, or the `KeyError` raised when the
      keyword's entry has no `columns` key (nothing catches it: the run stops). */
  datatype Selection = Selected(columns: seq<string>) | MissingColumnsKey

  /** Lines 147-153 of `main`: the keyword's own columns, else those of the
      `default` entry, else none. */
  function SelectColumns(mapping: map<string, Entry>, keyword: string): (r: Selection)
    ensures r.MissingColumnsKey? <==> keyword in mapping && mapping[keyword].columns.None?
    ensures r.Selected? && keyword in mapping ==> r.columns == mapping[keyword].columns.value
    ensures keyword !in mapping ==>
      r.Selected? && r.columns == (if "default" in mapping && mapping["default"].columns.Some? then mapping["default"].columns.value else [])
  {
    if keyword in mapping then
      match mapping[keyword].columns
      case Some(cols) => Selected(cols)
      case None => MissingColumnsKey
    else if "default" in mapping && mapping["default"].columns.Some? then
      Selected(mapping["default"].columns.value)
    else Selected([])
  }

  /** What `main` decides for one input file before reading it. */
  datatype FilePlan = Abort | SkipNoColumns | Extract(output: string, columns: seq<string>)

  /** The name the filtered copy of a file is written under. */
  function FilteredName(name: string): string {
    Prefixed("filtered_", name)
  }

  /** The body of `main`'s file loop up to the call of `process_csv_file`. */
  function PlanFile(mapping: map<string, Entry>, filename: string): (p: FilePlan)
    ensures p.Extract? ==> p.output == FilteredName(filename) && p.columns != []
  {
    match SelectColumns(mapping, GetFileKeyword(filename))
    case MissingColumnsKey => Abort
    case Selected(cols) => if cols == [] then SkipNoColumns else Extract(FilteredName(filename), cols)
  }

  /** A file whose stem holds a configured keyword (the earliest listed one
      it holds) is extracted with that keyword's column list, or skipped when
      that list is empty; an entry without `columns` aborts the run. */
  lemma PlanFileUsesKeyword(mapping: map<string, Entry>, filename: string, i: nat)
    requires EarliestOccurring(Keywords, Stem(filename), i)
    requires Keywords[i] in mapping
    ensures mapping[Keywords[i]].columns.None? ==> PlanFile(mapping, filename) == Abort
    ensures mapping[Keywords[i]].columns.Some? ==>
      var cols := mapping[Keywords[i]].columns.value;
      PlanFile(mapping, filename) == if cols == [] then SkipNoColumns else Extract(FilteredName(filename), cols)
  {
    FirstKeywordIsEarliest(Keywords, Stem(filename));
  }

  /** A file whose stem holds no keyword falls back to the `default` entry:
      it is skipped when there is no `default` entry or its list is empty,
      and the run aborts when the `default` entry has no `columns`. */
  lemma PlanFileFallsBackToDefault(mapping: map<string, Entry>, filename: string)
    requires forall k :: k in Keywords ==> !Contains(Stem(filename), k)
    ensures var cols := if "default" in mapping && mapping["default"].columns.Some? then mapping["default"].columns.value else [];
      && ("default" in mapping && mapping["default"].columns.None? ==> PlanFile(mapping, filename) == Abort)
      && ("default" !in mapping || mapping["default"].columns.Some? ==>
            PlanFile(mapping, filename) == if cols == [] then SkipNoColumns else Extract(FilteredName(filename), cols))
  {
    GetFileKeywordSpec(filename);
  }

  // ----- projecting a table -----

  /** `[col for col in columns if col not in available_columns]`. */
  function MissingColumns(requested: seq<string>, available: seq<string>): (r: seq<string>)
    ensures forall c :: c in r <==> c in requested && c !in available
  {
    if requested == [] then []
    else if requested[0] !in available then [requested[0]] + MissingColumns(requested[1..], available)
    else MissingColumns(requested[1..], available)
  }

  /** `[col for col in columns if col in available_columns]`. */
  function ExistingColumns(requested: seq<string>, available: seq<string>): (r: seq<string>)
    ensures forall c :: c in r <==> c in requested && c in available
  {
    if requested == [] then []
    else if requested[0] in available then [requested[0]] + ExistingColumns(requested[1..], available)
    else ExistingColumns(requested[1..], available)
  }

  /** `a` is `b` with some entries left out, the rest in the same order. */
  ghost predicate IsSubsequence(a: seq<string>, b: seq<string>)
    decreases |b|
  {
    a == [] || (b != [] && if a[0] == b[0] then IsSubsequence(a[1..], b[1..]) else IsSubsequence(a, b[1..]))
  }

  /** Missing and existing columns split the requested list: every entry goes
      to exactly one side, and the counts (with repetitions) add up. */
  lemma {:induction false} ColumnsPartition(requested: seq<string>, available: seq<string>)
    ensures |MissingColumns(requested, available)| + |ExistingColumns(requested, available)| == |requested|
    ensures multiset(MissingColumns(requested, available)) + multiset(ExistingColumns(requested, available)) == multiset(requested)
    decreases |requested|
  {
    if requested != [] {
      ColumnsPartition(requested[1..], available);
      assert requested == [requested[0]] + requested[1..];
    }
  }

  /** The existing columns keep the requested order. */
  lemma {:induction false} ExistingIsSubsequence(requested: seq<string>, available: seq<string>)
    ensures IsSubsequence(ExistingColumns(requested, available), requested)
    decreases |requested|
  {
    if requested != [] {
      ExistingIsSubsequence(requested[1..], available);
      var rest := ExistingColumns(requested[1..], available);
      if requested[0] !in available && rest != [] {
        assert rest[0] in available;
      }
    }
  }

  /** Only membership of the requested columns in `available` matters. */
  lemma {:induction false} ExistingDependsOnMembership(requested: seq<string>, a1: seq<string>, a2: seq<string>)
    requires forall c :: c in requested ==> (c in a1 <==> c in a2)
    ensures ExistingColumns(requested, a1) == ExistingColumns(requested, a2)
    decreases |requested|
  {
    if requested != [] {
      ExistingDependsOnMembership(requested[1..], a1, a2);
    }
  }

  /** The row restricted to the given columns. */
  function Restrict(row: Row, cols: seq<string>): (r: Row)
    ensures forall c :: Get(r, c) == if c in cols then Get(row, c) else Null
    ensures forall c :: c in r <==> c in row && c in cols
  {
    map c | c in row && c in cols :: row[c]
  }

  /** `df[cols]`: the same rows, reduced to the given columns. */
  function Project(f: Frame, cols: seq<string>): (r: Frame)
    ensures r.columns == cols && |r.rows| == |f.rows|
    ensures forall i :: 0 <= i < |f.rows| ==> r.rows[i] == Restrict(f.rows[i], cols)
  {
    Frame(cols, seq(|f.rows|, i requires 0 <= i < |f.rows| => Restrict(f.rows[i], cols)))
  }

  /** What `process_csv_file` does with one file and its requested columns. */
  datatype Extraction = NoColumnsFound | Extracted(table: Frame)

  function ExtractColumns(f: Frame, columns: seq<string>): Extraction {
    var existing := ExistingColumns(columns, f.columns);
    if existing == [] then NoColumnsFound else Extracted(Project(f, existing))
  }

  /** Nothing is written when no requested column is present; otherwise the
      output has exactly the present requested columns, in requested order, a
      subset of the file's columns, with every row and its values kept. */
  lemma ExtractColumnsOutcome(f: Frame, columns: seq<string>)
    requires WellFormed(f)
    ensures ExtractColumns(f, columns).NoColumnsFound? <==> forall c :: c in columns ==> c !in f.columns
    ensures ExtractColumns(f, columns).Extracted? ==>
      var t := ExtractColumns(f, columns).table;
      && t.columns == ExistingColumns(columns, f.columns)
      && IsSubsequence(t.columns, columns)
      && (forall c :: c in t.columns ==> c in f.columns)
      && WellFormed(t)
      && |t.rows| == |f.rows|
      && forall i, c :: 0 <= i < |f.rows| && c in t.columns ==> Get(t.rows[i], c) == Get(f.rows[i], c)
  {
  }

  /** Projecting an output again with the same column list gives it back. */
  lemma ExtractColumnsIdempotent(f: Frame, columns: seq<string>)
    requires ExtractColumns(f, columns).Extracted?
    ensures ExtractColumns(ExtractColumns(f, columns).table, columns) == ExtractColumns(f, columns)
  {
    var existing := ExistingColumns(columns, f.columns);
    var t := Project(f, existing);
    ExistingDependsOnMembership(columns, existing, f.columns);
    var t2 := Project(t, existing);
    assert forall i :: 0 <= i < |t.rows| ==> Restrict(t.rows[i], existing) == t.rows[i];
    assert t2.rows == t.rows;
  }
}

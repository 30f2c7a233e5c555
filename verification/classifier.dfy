/**
 The content classifier of `refactor_csv.py`: each row's `content` is tried
 against an ordered list of rules (a prefix regular expression `code`, else an
 exact `abbreviation`), the first rule that hits yields one record keyed by a
 digest of its content and coordinates, and the records are written in a fixed
 column order.

 The regular-expression engine and the MD5 digest are not modelled: they are
 the parameters `matcher` (pattern, subject) and `md5` (text to hex digest).
 */
module Classifier {
  import opened Table
  import opened Text

  /** One entry of the ordered pattern mapping; either key may be absent. */
  datatype Rule = Rule(code: Option<string>, abbreviation: Option<string>)

  /** What `re.match(pattern, subject)` does: match at position 0, fail, or
      raise `re.error` for a malformed pattern. */
  datatype MatchResult = Match | NoMatch | RegexError

  type Matcher = (string, string) -> MatchResult

  type Digest = string -> string

  /** One output row. */
  datatype Record = Record(id: string, content: string, x: Cell, y: Cell, z: Cell, layer: Cell, style: Cell)

  /** The result of processing one file. */
  datatype FileOutcome =
    | MissingContentColumn
    | NoMatches
    | Written(columns: seq<string>, records: seq<Record>)

  const OutputColumns: seq<string> := ["id", "content", "x", "y", "z", "layer", "style"]

  /** Python truthiness of an optional string: present and non-empty. */
  predicate Truthy(o: Option<string>) {
    o.Some? && o.value != ""
  }

  /** `str(v)` of a cell. */
  function CellText(c: Cell): string {
    match c
    case Null => "None"
    case NaN => "nan"
    case Str(t) => t
  }

  /** `pd.isna(content) or content == ""`: the rows skipped before any rule is tried. */
  predicate IsBlank(c: Cell) {
    c.Null? || c.NaN? || c == Str("")
  }

  /** The text `generate_hash` digests: the string forms of content, x, y, z
      and layer, concatenated without separator. */
  function HashKey(content: string, x: Cell, y: Cell, z: Cell, layer: Cell): string {
    content + CellText(x) + CellText(y) + CellText(z) + CellText(layer)
  }

  /** A record's id is the digest of its own five key fields. */
  predicate IdConsistent(r: Record, md5: Digest) {
    r.id == md5(HashKey(r.content, r.x, r.y, r.z, r.layer))
  }

  /** The record built for a row that hit a rule, its id filled in by `generate_hash`. */
  function MakeRecord(content: string, row: Row, md5: Digest): (r: Record)
    ensures IdConsistent(r, md5)
    ensures r.content == content
    ensures r.x == Get(row, "x") && r.y == Get(row, "y") && r.z == Get(row, "z")
    ensures r.layer == Get(row, "layer") && r.style == Get(row, "style")
  {
    var x, y, z, layer := Get(row, "x"), Get(row, "y"), Get(row, "z"), Get(row, "layer");
    Record(md5(HashKey(content, x, y, z, layer)), content, x, y, z, layer, Get(row, "style"))
  }

  /** Whether trying `rule` on the trimmed content ends the rule loop with a
      record: the rule has a code, and its regex prefix-matches, or it fails
      to match (without raising) and the abbreviation is non-empty and equal
      to the content. */
  predicate Hits(rule: Rule, content: string, matcher: Matcher) {
    Truthy(rule.code) &&
    match matcher(rule.code.value, content)
    case Match => true
    case NoMatch => Truthy(rule.abbreviation) && content == rule.abbreviation.value
    case RegexError => false
  }

  /** The first rule at or after `from` that hits, if any. */
  function FirstHitFrom(rules: seq<Rule>, content: string, matcher: Matcher, from: nat): (r: Option<nat>)
    requires from <= |rules|
    ensures r.Some? ==> from <= r.value < |rules| && Hits(rules[r.value], content, matcher)
    ensures forall k :: from <= k < |rules| && (r.None? || k < r.value) ==> !Hits(rules[k], content, matcher)
    decreases |rules| - from
  {
    if from == |rules| then None
    else if Hits(rules[from], content, matcher) then Some(from)
    else FirstHitFrom(rules, content, matcher, from + 1)
  }

  /** The rule that claims the content: the earliest one that hits. */
  function FirstHit(rules: seq<Rule>, content: string, matcher: Matcher): (r: Option<nat>)
    ensures r.Some? ==> r.value < |rules| && Hits(rules[r.value], content, matcher)
    ensures forall k :: 0 <= k < |rules| && (r.None? || k < r.value) ==> !Hits(rules[k], content, matcher)
  {
    FirstHitFrom(rules, content, matcher, 0)
  }

  /** The record a row contributes, if any. */
  function RowRecord(row: Row, rules: seq<Rule>, matcher: Matcher, md5: Digest): Option<Record> {
    var c := Get(row, "content");
    if IsBlank(c) then None
    else
      var content := Strip(CellText(c));
      if FirstHit(rules, content, matcher).Some? then Some(MakeRecord(content, row, md5)) else None
  }

  /** Null or `""` content yields nothing; any other content yields a record
      exactly when some rule hits its trimmed text, and that record holds the
      trimmed text and the row's own cells. */
  lemma RowRecordSpec(row: Row, rules: seq<Rule>, matcher: Matcher, md5: Digest)
    ensures IsBlank(Get(row, "content")) ==> RowRecord(row, rules, matcher, md5).None?
    ensures !IsBlank(Get(row, "content")) ==>
      var content := Strip(CellText(Get(row, "content")));
      (RowRecord(row, rules, matcher, md5).Some? <==> exists k :: 0 <= k < |rules| && Hits(rules[k], content, matcher))
    ensures RowRecord(row, rules, matcher, md5).Some? ==>
      RowRecord(row, rules, matcher, md5).value == MakeRecord(Strip(CellText(Get(row, "content"))), row, md5)
  {
  }

  function OptionToSeq(o: Option<Record>): seq<Record> {
    if o.Some? then [o.value] else []
  }

  /** The per-row step of the row loop, as a value. */
  function RowStep(rules: seq<Rule>, matcher: Matcher, md5: Digest): Row -> Option<Record> {
    row => RowRecord(row, rules, matcher, md5)
  }

  /** The records a per-row step yields for a sequence of rows, in row order. */
  function Classified(rows: seq<Row>, step: Row -> Option<Record>): seq<Record>
  {
    if rows == [] then []
    else Classified(rows[..|rows| - 1], step) + OptionToSeq(step(rows[|rows| - 1]))
  }

  /** `df["style"] = None` when the column is absent. */
  function FillStyle(f: Frame): (r: Frame)
    requires WellFormed(f)
    ensures WellFormed(r) && "style" in r.columns
    ensures forall c :: c in f.columns ==> c in r.columns
    ensures |r.rows| == |f.rows|
    ensures forall i, c :: 0 <= i < |f.rows| ==> Get(r.rows[i], c) == Get(f.rows[i], c)
  {
    if "style" in f.columns then f
    else
      var rows := seq(|f.rows|, i requires 0 <= i < |f.rows| => f.rows[i]["style" := Null]);
      var cols := f.columns + ["style"];
      Frame(cols, rows)
  }

  /** What `process_csv_file` does with one file. */
  function ClassifyFile(f: Frame, rules: seq<Rule>, matcher: Matcher, md5: Digest): FileOutcome
    requires WellFormed(f)
  {
    var df := FillStyle(f);
    if "content" !in df.columns then MissingContentColumn
    else
      var records := Classified(df.rows, RowStep(rules, matcher, md5));
      if records == [] then NoMatches else Written(OutputColumns, records)
  }

  /** The body of the row loop of `process_csv_file`: skip null or empty
      content, trim it, and try the rules in order until one hits. */
  method ClassifyRow(row: Row, rules: seq<Rule>, matcher: Matcher, md5: Digest) returns (record: Option<Record>)
    requires "content" in row
    ensures record == RowRecord(row, rules, matcher, md5)
  {
    var content := row["content"];
    if IsBlank(content) {
      return None;
    }
    var contentStr := Strip(CellText(content));
    record := None;
    for j := 0 to |rules|
      invariant record.None?
      invariant forall k :: 0 <= k < j ==> !Hits(rules[k], contentStr, matcher)
    {
      var rule := rules[j];
      if !Truthy(rule.code) {
        continue;
      }
      var m := matcher(rule.code.value, contentStr);
      if m == Match {
        record := Some(MakeRecord(contentStr, row, md5));
        break;
      } else if m == NoMatch && Truthy(rule.abbreviation) && contentStr == rule.abbreviation.value {
        record := Some(MakeRecord(contentStr, row, md5));
        break;
      }
      // m == RegexError: the error is logged and the next rule is tried
    }
  }

  /** `process_csv_file`: fill the style column, check for the content column,
      then classify every row in order, appending at most one record per row. */
  method ProcessCsvFile(f: Frame, rules: seq<Rule>, matcher: Matcher, md5: Digest) returns (outcome: FileOutcome)
    requires WellFormed(f)
    ensures outcome == ClassifyFile(f, rules, matcher, md5)
  {
    var df := FillStyle(f);
    if "content" !in df.columns {
      return MissingContentColumn;
    }
    var results: seq<Record> := [];
    for i := 0 to |df.rows|
      invariant results == Classified(df.rows[..i], RowStep(rules, matcher, md5))
    {
      assert df.rows[..i + 1][..i] == df.rows[..i];
      var record := ClassifyRow(df.rows[i], rules, matcher, md5);
      results := results + OptionToSeq(record);
    }
    assert df.rows[..|df.rows|] == df.rows;
    if results == [] {
      outcome := NoMatches;
    } else {
      outcome := Written(OutputColumns, results);
    }
  }

  /** Classifying concatenated row sequences concatenates the records: rows
      are handled independently and records keep row order. */
  lemma {:induction false} ClassifiedAppend(a: seq<Row>, b: seq<Row>, step: Row -> Option<Record>)
    ensures Classified(a + b, step) == Classified(a, step) + Classified(b, step)
    decreases |b|
  {
    if b != [] {
      var b' := b[..|b| - 1];
      assert (a + b)[..|a + b| - 1] == a + b';
      ClassifiedAppend(a, b', step);
    } else {
      assert a + b == a;
    }
  }

  /** Each row yields at most one record. */
  lemma {:induction false} ClassifiedAtMostOnePerRow(rows: seq<Row>, step: Row -> Option<Record>)
    ensures |Classified(rows, step)| <= |rows|
    decreases |rows|
  {
    if rows != [] {
      ClassifiedAtMostOnePerRow(rows[..|rows| - 1], step);
    }
  }

  /** Every record is the record of some input row. */
  lemma {:induction false} ClassifiedOrigin(rows: seq<Row>, step: Row -> Option<Record>, r: Record)
    requires r in Classified(rows, step)
    ensures exists i :: 0 <= i < |rows| && step(rows[i]) == Some(r)
    decreases |rows|
  {
    var init := rows[..|rows| - 1];
    if r in Classified(init, step) {
      ClassifiedOrigin(init, step, r);
      var i :| 0 <= i < |init| && step(init[i]) == Some(r);
      assert rows[i] == init[i];
    } else {
      assert r in OptionToSeq(step(rows[|rows| - 1]));
    }
  }

  /** No records at all exactly when no row yields one. */
  lemma {:induction false} ClassifiedEmptyIff(rows: seq<Row>, step: Row -> Option<Record>)
    ensures Classified(rows, step) == [] <==> forall i :: 0 <= i < |rows| ==> step(rows[i]).None?
    decreases |rows|
  {
    if rows != [] {
      var init := rows[..|rows| - 1];
      ClassifiedEmptyIff(init, step);
      assert forall i :: 0 <= i < |init| ==> rows[i] == init[i];
    }
  }

  /** Steps that agree row by row on two equally long row sequences yield
      the same records. */
  lemma {:induction false} ClassifiedPointwise(a: seq<Row>, b: seq<Row>, step: Row -> Option<Record>)
    requires |a| == |b|
    requires forall i :: 0 <= i < |a| ==> step(a[i]) == step(b[i])
    ensures Classified(a, step) == Classified(b, step)
    decreases |a|
  {
    if a != [] {
      ClassifiedPointwise(a[..|a| - 1], b[..|b| - 1], step);
    }
  }

  /** Every record's id is the digest of its own content, x, y, z and layer. */
  lemma ClassifiedIdsConsistent(rows: seq<Row>, rules: seq<Rule>, matcher: Matcher, md5: Digest)
    ensures forall r :: r in Classified(rows, RowStep(rules, matcher, md5)) ==> IdConsistent(r, md5)
  {
  }

  /** Filling the style column changes no row's record. */
  lemma FillStyleKeepsRecords(f: Frame, rules: seq<Rule>, matcher: Matcher, md5: Digest)
    requires WellFormed(f)
    ensures forall i :: 0 <= i < |f.rows| ==>
      RowRecord(FillStyle(f).rows[i], rules, matcher, md5) == RowRecord(f.rows[i], rules, matcher, md5)
  {
  }

  /** What one file turns into: no output without a content column, no output
      when no row yields a record, otherwise the fixed seven columns and the
      records of the input rows in row order, at most one per row, each keyed
      by the digest of its own fields. */
  lemma ClassifyFileOutcome(f: Frame, rules: seq<Rule>, matcher: Matcher, md5: Digest)
    requires WellFormed(f)
    ensures ClassifyFile(f, rules, matcher, md5).MissingContentColumn? <==> "content" !in f.columns
    ensures ClassifyFile(f, rules, matcher, md5).NoMatches? <==>
      "content" in f.columns && forall i :: 0 <= i < |f.rows| ==> RowRecord(f.rows[i], rules, matcher, md5).None?
    ensures ClassifyFile(f, rules, matcher, md5).Written? ==>
      var out := ClassifyFile(f, rules, matcher, md5);
      && out.columns == ["id", "content", "x", "y", "z", "layer", "style"]
      && 0 < |out.records| <= |f.rows|
      && out.records == Classified(f.rows, RowStep(rules, matcher, md5))
      && forall r :: r in out.records ==> IdConsistent(r, md5)
  {
    var df := FillStyle(f);
    assert "content" in df.columns <==> "content" in f.columns;
    ClassifiedEmptyIff(df.rows, RowStep(rules, matcher, md5));
    ClassifiedAtMostOnePerRow(df.rows, RowStep(rules, matcher, md5));
    ClassifiedIdsConsistent(df.rows, rules, matcher, md5);
    FillStyleKeepsRecords(f, rules, matcher, md5);
    ClassifiedPointwise(df.rows, f.rows, RowStep(rules, matcher, md5));
  }

  /** First match wins: once one rule claims the content, rules after it are
      never consulted, so whatever they would say does not change the outcome. */
  lemma FirstMatchWins(rules: seq<Rule>, later: seq<Rule>, content: string, matcher: Matcher)
    requires FirstHit(rules, content, matcher).Some?
    ensures FirstHit(rules + later, content, matcher) == FirstHit(rules, content, matcher)
  {
    assert forall j :: 0 <= j < |rules| ==> (rules + later)[j] == rules[j];
  }

  /** A rule that is skipped for lacking a code, or whose pattern raises a
      regex error, is inert: inserting it anywhere in the mapping leaves the
      rule that claims the content unchanged (shifted past it). */
  lemma InertRuleIsTransparent(rules: seq<Rule>, bad: Rule, k: nat, content: string, matcher: Matcher)
    requires k <= |rules|
    requires !Truthy(bad.code) || matcher(bad.code.value, content) == RegexError
    ensures var r := FirstHit(rules[..k] + [bad] + rules[k..], content, matcher);
      var r0 := FirstHit(rules, content, matcher);
      && (r0.None? ==> r.None?)
      && (r0.Some? ==> r == Some(if r0.value < k then r0.value else r0.value + 1))
  {
    var all := rules[..k] + [bad] + rules[k..];
    assert |all| == |rules| + 1;
    assert forall j :: 0 <= j < k ==> all[j] == rules[j];
    assert all[k] == bad && !Hits(bad, content, matcher);
    assert forall j :: k < j < |all| ==> all[j] == rules[j - 1];
    var r0 := FirstHit(rules, content, matcher);
    if r0.Some? {
      var w := if r0.value < k then r0.value else r0.value + 1;
      assert Hits(all[w], content, matcher);
      assert forall j :: 0 <= j < w ==> !Hits(all[j], content, matcher);
    }
  }

  /** The id depends on content, x, y, z and layer only: rows that agree on
      those yield records with the same id, whatever their style. */
  lemma IdDependsOnKeyFieldsOnly(row1: Row, row2: Row, rules: seq<Rule>, matcher: Matcher, md5: Digest)
    requires forall c :: c in ["content", "x", "y", "z", "layer"] ==> Get(row1, c) == Get(row2, c)
    requires RowRecord(row1, rules, matcher, md5).Some?
    ensures RowRecord(row2, rules, matcher, md5).Some?
    ensures RowRecord(row2, rules, matcher, md5).value.id == RowRecord(row1, rules, matcher, md5).value.id
  {
  }

  /** The digested text has no separators: whenever content and x run
      together to the same text, the digested text is the same, so records
      that differ in content and x can share an id (content "A1" with x "2"
      and content "A" with x "12"; content "AN" with x "one" and content "A"
      with x missing, which renders as "None"). */
  lemma HashKeyIgnoresFieldBoundaries(c1: string, x1: Cell, c2: string, x2: Cell, y: Cell, z: Cell, layer: Cell)
    requires c1 + CellText(x1) == c2 + CellText(x2)
    ensures HashKey(c1, x1, y, z, layer) == HashKey(c2, x2, y, z, layer)
  {
  }

  /** Only the raw empty string and null are skipped; content made only of
      white space is trimmed to "" and offered to the rules like any other,
      so it yields a record exactly when some rule hits "". */
  lemma WhitespaceContentIsNotSkipped(row: Row, t: string, rules: seq<Rule>, matcher: Matcher, md5: Digest)
    requires Get(row, "content") == Str(t) && t != []
    requires forall k :: 0 <= k < |t| ==> IsSpace(t[k])
    ensures !IsBlank(Get(row, "content"))
    ensures RowRecord(row, rules, matcher, md5) ==
      if FirstHit(rules, "", matcher).Some? then Some(MakeRecord("", row, md5)) else None
  {
    StripIsTrim(t);
  }

  /** The output file name for an input file name. */
  function RefactoredName(name: string): string {
    Prefixed("refactored_", name)
  }
}

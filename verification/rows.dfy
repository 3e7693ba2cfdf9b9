/**
  Which extracted jobs become CSV rows, and what a row holds (main.go:42, 72-83).
 */
module Rows {
  import opened Wrappers
  import opened GoStrings
  import opened Extract

  /** A CSV record as the list of its fields. */
  type Row = seq<string>

  /** The columns of the CSV file, in the order main.go:79 writes them. */
  datatype Field = Title | Location | Description | ExperienceLevel | Url

  const Columns: seq<Field> := [Title, Location, Description, ExperienceLevel, Url]

  /** The name of the `Job` field a column holds. */
  function FieldName(f: Field): string {
    match f
    case Title => "Title"
    case Location => "Location"
    case Description => "Description"
    case ExperienceLevel => "ExperienceLevel"
    case Url => "URL"
  }

  /** The value of the `Job` field a column holds. */
  function FieldValue(j: Job, f: Field): string {
    match f
    case Title => j.title
    case Location => j.location
    case Description => j.description
    case ExperienceLevel => j.experienceLevel
    case Url => j.url
  }

  /** The header row written first (main.go:42). */
  const Header: Row := ["Title", "Location", "Description", "ExperienceLevel", "URL"]

  /** The header names the columns in row order. */
  lemma {:induction false} HeaderNamesColumns()
    ensures |Header| == |Columns|
    ensures forall i :: 0 <= i < |Columns| ==> Header[i] == FieldName(Columns[i])
  {
  }

  /** A job worth writing: title, location and link are all non-empty (main.go:78).
      The experience level may be empty. */
  predicate IsComplete(j: Job) {
    j.title != "" && j.location != "" && j.url != ""
  }

  /** The row written for a job (main.go:79): cell `i` holds the field of column `i`,
      the one the header's cell `i` names. */
  function ToRow(j: Job): (row: Row)
    ensures |row| == |Columns|
    ensures forall i :: 0 <= i < |Columns| ==> row[i] == FieldValue(j, Columns[i])
  {
    [j.title, j.location, j.description, j.experienceLevel, j.url]
  }

  /** A row of a complete job: five fields, title, location and link non-empty,
      the description the placeholder. */
  predicate WellFormed(row: Row) {
    |row| == 5 && row[0] != "" && row[1] != "" && row[2] == Placeholder && row[4] != ""
  }

  /** The loop body for one listing (main.go:73-83): the row to write, or nothing when extraction
      failed or the job is incomplete. */
  function RowFor(l: Listing): (r: Option<Row>)
    ensures r.Some? ==> WellFormed(r.value)
  {
    match ExtractJobInfo(l)
    case Failure(_) => None
    case Success(job) =>
      if IsComplete(job) then
        var row := ToRow(job);
        assert row[0] == job.title && row[1] == job.location && row[2] == job.description && row[4] == job.url
          by { assert Columns[1] == Location && Columns[2] == Description; }
        Some(row)
      else None
  }

  /** A listing is written exactly when its card parsed, its copy block rendered and contains `<br/>`,
      its link is present and non-empty, and neither its heading nor the segment after the first
      `<br/>` is blank; the experience level plays no part. */
  lemma {:induction false} RowForIff(l: Listing)
    ensures RowFor(l).Some? <==>
      && l.Parsed? && l.copy.Rendered? && l.href.Some?
      && l.href.value != ""
      && Contains(l.copy.html, LineBreak)
      && !AllSpace(l.heading)
      && !AllSpace(SecondSegment(l.copy.html))
  {
    ExtractJobInfoSpec(l);
    if l.Parsed? && l.copy.Rendered? {
      TrimSpaceSpec(l.heading);
      if ExtractJobInfo(l).Success? {
        ExtractSegments(l);
        TrimSpaceSpec(SecondSegment(l.copy.html));
      }
    }
  }

  /** What a written row holds: the trimmed heading, the trimmed text after the first `<br/>`, the
      placeholder, the trimmed text before it, and the link exactly as found. */
  lemma {:induction false} RowContents(l: Listing)
    requires RowFor(l).Some?
    ensures l.Parsed? && l.copy.Rendered? && l.href.Some? && Contains(l.copy.html, LineBreak)
    ensures RowFor(l).value == [TrimSpace(l.heading), TrimSpace(SecondSegment(l.copy.html)), Placeholder,
                                TrimSpace(FirstSegment(l.copy.html)), l.href.value]
  {
    ExtractJobInfoSpec(l);
    ExtractSegments(l);
  }

  /** A card whose copy block is `level<br/>location`, with a heading and location that are not
      blank and a non-empty link, is written as the row of its trimmed texts and its link. */
  lemma {:induction false} CardRow(heading: string, level: string, location: string, url: string)
    requires !Contains(level, LineBreak) && !Contains(location, LineBreak)
    requires !AllSpace(heading) && !AllSpace(location) && url != ""
    ensures RowFor(Parsed(heading, Rendered(level + LineBreak + location), Some(url)))
         == Some([TrimSpace(heading), TrimSpace(location), Placeholder, TrimSpace(level), url])
  {
    ExtractTwoSegments(heading, level, location, url);
    TrimSpaceSpec(heading);
    TrimSpaceSpec(location);
  }

  /** The rows the listings of one page contribute, in listing order (main.go:72-84). */
  function PageRows(listings: seq<Listing>): (rows: seq<Row>)
  {
    if |listings| == 0 then []
    else
      match RowFor(listings[0])
      case None => PageRows(listings[1..])
      case Some(row) => [row] + PageRows(listings[1..])
  }

  /** A page yields at most one row per listing, and every row it yields is well formed. */
  lemma {:induction false} PageRowsWellFormed(listings: seq<Listing>)
    ensures |PageRows(listings)| <= |listings|
    ensures forall k :: 0 <= k < |PageRows(listings)| ==> WellFormed(PageRows(listings)[k])
    decreases |listings|
  {
    if |listings| > 0 {
      PageRowsWellFormed(listings[1..]);
      var rest := PageRows(listings[1..]);
      var row := RowFor(listings[0]);
      if row.Some? {
        WellFormedCons(row.value, rest);
      }
    }
  }

  lemma {:induction false} WellFormedCons(row: Row, rest: seq<Row>)
    requires WellFormed(row)
    requires forall k :: 0 <= k < |rest| ==> WellFormed(rest[k])
    ensures forall k :: 0 <= k < |[row] + rest| ==> WellFormed(([row] + rest)[k])
  {
    forall k | 0 <= k < |[row] + rest|
      ensures WellFormed(([row] + rest)[k])
    {
      if k > 0 {
        assert ([row] + rest)[k] == rest[k - 1];
      }
    }
  }

  /** Rows of consecutive listings are the rows of each part, in order. */
  lemma {:induction false} PageRowsAppend(a: seq<Listing>, b: seq<Listing>)
    ensures PageRows(a + b) == PageRows(a) + PageRows(b)
    decreases |a|
  {
    if |a| == 0 {
      assert a + b == b;
    } else {
      assert (a + b)[1..] == a[1..] + b;
      PageRowsAppend(a[1..], b);
    }
  }

  /** The rows of a single listing. */
  lemma {:induction false} PageRowsSingle(l: Listing)
    ensures PageRows([l]) == if RowFor(l).Some? then [RowFor(l).value] else []
  {
    assert [l][1..] == [];
  }

  /** A listing that is skipped leaves no trace: processing goes on with the next one. */
  lemma {:induction false} SkippedListing(before: seq<Listing>, l: Listing, after: seq<Listing>)
    requires RowFor(l).None?
    ensures PageRows(before + [l] + after) == PageRows(before) + PageRows(after)
  {
    PageRowsAppend(before + [l], after);
    PageRowsAppend(before, [l]);
    PageRowsSingle(l);
  }

  /** A listing that is written contributes exactly its row, in its place. */
  lemma {:induction false} WrittenListing(before: seq<Listing>, l: Listing, after: seq<Listing>)
    requires RowFor(l).Some?
    ensures PageRows(before + [l] + after) == PageRows(before) + [RowFor(l).value] + PageRows(after)
  {
    PageRowsAppend(before + [l], after);
    PageRowsAppend(before, [l]);
    PageRowsSingle(l);
  }
}

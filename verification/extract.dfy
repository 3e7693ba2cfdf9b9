/**
  Turning one rendered job card into a `Job` record (`extractJobInfo`, main.go:116-147).
  The HTML parser and its selector queries are outside the model: a listing is given by what
  those queries answer.
 */
module Extract {
  import opened Wrappers
  import opened GoStrings

  /** The scraped record (main.go:17-23). */
  datatype Job = Job(
    title: string,
    location: string,
    description: string,
    experienceLevel: string,
    url: string)

  /** The fixed text stored as every job's description. */
  const Placeholder: string := "to be implemented"

  /** The separator between the experience level and the location in a card's copy block. */
  const LineBreak: string := "<br/>"

  /** What `.Html()` of the card's copy block answered: its inner HTML, or a rendering error. */
  datatype InnerHtml = Rendered(html: string) | RenderError

  /** One job card as the document queries see it. `Unparsable` is a card the HTML parser rejected;
      otherwise `heading` is the text of the heading element (empty when there is none),
      `copy` the inner HTML of the level/location block, and `href` the link's `href`
      attribute if the link and the attribute exist. */
  datatype Listing =
    | Unparsable
    | Parsed(heading: string, copy: InnerHtml, href: Option<string>)

  /** The four ways `extractJobInfo` fails, in the order it checks them. */
  datatype ExtractError =
    | ParseError             // "error parsing HTML"
    | InnerHtmlError         // "error extracting HTML"
    | MissingUrl             // "error finding URL"
    | InvalidLocationFormat  // "invalid location/level format"

  /** The text of a copy block before its first `<br/>`. */
  function FirstSegment(html: string): string
    requires Contains(html, LineBreak)
  {
    html[..IndexOf(html, LineBreak)]
  }

  /** The text of a copy block between its first `<br/>` and the next one, or the end. */
  function SecondSegment(html: string): string
    requires Contains(html, LineBreak)
  {
    var rest := html[IndexOf(html, LineBreak) + |LineBreak|..];
    var j := IndexOf(rest, LineBreak);
    if j < 0 then rest else rest[..j]
  }

  /** The first two pieces of a split are the two segments. */
  lemma {:induction false} SplitSegments(html: string)
    requires Contains(html, LineBreak)
    ensures |Split(html, LineBreak)| >= 2
    ensures Split(html, LineBreak)[0] == FirstSegment(html)
    ensures Split(html, LineBreak)[1] == SecondSegment(html)
  {
    var rest := html[IndexOf(html, LineBreak) + |LineBreak|..];
    assert Split(html, LineBreak) == [FirstSegment(html)] + Split(rest, LineBreak);
  }

  lemma {:induction false} LineBreakFirstCharUnique()
    ensures FirstCharUnique(LineBreak)
  {
  }

  /** `extractJobInfo`: checks the parse, the copy block, the link and the `<br/>` split, in that order,
      and on success trims the heading and the first two segments of the copy block. */
  function ExtractJobInfo(l: Listing): Result<Job, ExtractError> {
    match l
    case Unparsable => Failure(ParseError)
    case Parsed(heading, copy, href) =>
      if copy.RenderError? then Failure(InnerHtmlError)
      else if href.None? then Failure(MissingUrl)
      else
        var parts := Split(copy.html, LineBreak);
        if |parts| < 2 then Failure(InvalidLocationFormat)
        else
          Success(Job(
            TrimSpace(heading),
            TrimSpace(parts[1]),
            Placeholder,
            TrimSpace(parts[0]),
            href.value))
  }

  /** Each failure happens exactly in its own case, checked in order: an unparsable card, then a copy
      block that did not render, then a missing link, then a copy block without `<br/>`. On success
      the title is the trimmed heading, the link is kept as found and the description is the placeholder. */
  lemma {:induction false} ExtractJobInfoSpec(l: Listing)
    ensures ExtractJobInfo(l) == Failure(ParseError) <==> l.Unparsable?
    ensures ExtractJobInfo(l) == Failure(InnerHtmlError) <==> l.Parsed? && l.copy.RenderError?
    ensures ExtractJobInfo(l) == Failure(MissingUrl) <==> l.Parsed? && l.copy.Rendered? && l.href.None?
    ensures ExtractJobInfo(l) == Failure(InvalidLocationFormat) <==>
      l.Parsed? && l.copy.Rendered? && l.href.Some? && !Contains(l.copy.html, LineBreak)
    ensures ExtractJobInfo(l).Success? ==>
      && l.Parsed? && l.copy.Rendered? && l.href.Some?
      && ExtractJobInfo(l).value.title == TrimSpace(l.heading)
      && ExtractJobInfo(l).value.url == l.href.value
      && ExtractJobInfo(l).value.description == Placeholder
  {
    if l.Parsed? && l.copy.Rendered? {
      SplitSpec(l.copy.html, LineBreak);
    }
  }

  /** Extraction reads only the first two pieces of the copy block's split. */
  lemma {:induction false} ExtractFromPieces(heading: string, html: string, href: Option<string>, level: string, location: string, more: seq<string>)
    requires Split(html, LineBreak) == [level, location] + more
    ensures ExtractJobInfo(Parsed(heading, Rendered(html), href))
         == if href.None? then Failure(MissingUrl)
            else Success(Job(TrimSpace(heading), TrimSpace(location), Placeholder, TrimSpace(level), href.value))
  {
  }

  /** On success the experience level is the trimmed text before the first `<br/>`, and the location
      the trimmed text between it and the next `<br/>` (or the end). */
  lemma {:induction false} ExtractSegments(l: Listing)
    requires ExtractJobInfo(l).Success?
    ensures l.Parsed? && l.copy.Rendered? && Contains(l.copy.html, LineBreak)
    ensures ExtractJobInfo(l).value.experienceLevel == TrimSpace(FirstSegment(l.copy.html))
    ensures ExtractJobInfo(l).value.location == TrimSpace(SecondSegment(l.copy.html))
  {
    ExtractJobInfoSpec(l);
    SplitSegments(l.copy.html);
  }

  /** A card whose copy block is `level<br/>location` yields the trimmed heading, level and location,
      and the link exactly as found. */
  lemma {:induction false} ExtractTwoSegments(heading: string, level: string, location: string, url: string)
    requires !Contains(level, LineBreak) && !Contains(location, LineBreak)
    ensures ExtractJobInfo(Parsed(heading, Rendered(level + LineBreak + location), Some(url)))
         == Success(Job(TrimSpace(heading), TrimSpace(location), Placeholder, TrimSpace(level), url))
  {
    LineBreakFirstCharUnique();
    SplitAfterPiece(level, LineBreak, location);
    SplitWithout(location, LineBreak);
    ExtractFromPieces(heading, level + LineBreak + location, Some(url), level, location, []);
  }

  /** Segments after the second are ignored: appending `<br/>` and anything else to a two-segment
      copy block changes nothing. */
  lemma {:induction false} ExtractIgnoresLaterSegments(heading: string, level: string, location: string, rest: string, href: Option<string>)
    requires !Contains(level, LineBreak) && !Contains(location, LineBreak)
    ensures ExtractJobInfo(Parsed(heading, Rendered(level + LineBreak + location + LineBreak + rest), href))
         == ExtractJobInfo(Parsed(heading, Rendered(level + LineBreak + location), href))
  {
    LineBreakFirstCharUnique();
    var long := level + LineBreak + location + LineBreak + rest;
    var short := level + LineBreak + location;
    var tail := location + LineBreak + rest;
    assert long == level + LineBreak + tail;
    SplitAfterPiece(level, LineBreak, tail);
    SplitAfterPiece(location, LineBreak, rest);
    assert Split(long, LineBreak) == [level, location] + Split(rest, LineBreak);
    ExtractFromPieces(heading, long, href, level, location, Split(rest, LineBreak));
    SplitAfterPiece(level, LineBreak, location);
    SplitWithout(location, LineBreak);
    assert Split(short, LineBreak) == [level, location] + [];
    ExtractFromPieces(heading, short, href, level, location, []);
  }
}

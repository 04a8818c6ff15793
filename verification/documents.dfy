/** The per-course documents of `create_course_documents`: the metadata that
    serves as the retrieval join key, and the normalised student reviews. The
    rest of the document text is a fixed template and is not modelled. */
module Documents {
  import opened Text
  import opened Catalog

  /** The default review text for a record without usable reviews. */
  const NoReviews: string := "No student reviews available"

  /** The value `formatted_reviews` ends up holding: a string, or the empty
      list itself (the `else reviews` branch keeps a list that is empty). */
  datatype FormattedReviews = Formatted(text: string) | KeptEmptyList

  /** The review normaliser: a non-empty list becomes a bulleted text, a string
      passes through, an empty list is kept, and anything else (or no key at
      all) becomes the default text. */
  function FormatReviews(f: ReviewField): (r: FormattedReviews)
    ensures r.KeptEmptyList? <==> f.ReviewList? && |f.items| == 0
    ensures f.ReviewText? ==> r == Formatted(f.text)
    ensures f.Missing? || f.OtherValue? ==> r == Formatted(NoReviews)
    ensures f.ReviewList? && |f.items| > 0 ==> r.Formatted? && |r.text| >= 2 && r.text[..2] == "- "
  {
    match f
    case ReviewList(items) =>
      if |items| > 0 then Formatted("- " + Join("\n- ", items)) else KeptEmptyList
    case ReviewText(text) => Formatted(text)
    case Missing => Formatted(NoReviews)
    case OtherValue => Formatted(NoReviews)
  }

  /** What the f-string interpolation writes into the document text; an empty
      list is printed the way Python prints it, as `[]`. */
  function Render(r: FormattedReviews): string {
    match r
    case Formatted(text) => text
    case KeptEmptyList => "[]"
  }

  /** Each review prefixed with a bullet. */
  function Bullets(items: seq<string>): seq<string> {
    seq(|items|, i requires 0 <= i < |items| => "- " + items[i])
  }

  /** `"- " + "\n- ".join(xs)` is the bullets of `xs`, one per line. */
  lemma {:induction false} BulletJoin(xs: seq<string>)
    requires |xs| > 0
    ensures "- " + Join("\n- ", xs) == Join("\n", Bullets(xs))
    decreases |xs|
  {
    if |xs| > 1 {
      BulletJoin(xs[1..]);
      assert Bullets(xs)[1..] == Bullets(xs[1..]);
      calc {
        "- " + Join("\n- ", xs);
        "- " + (xs[0] + "\n- " + Join("\n- ", xs[1..]));
        ("- " + xs[0]) + "\n" + ("- " + Join("\n- ", xs[1..]));
        ("- " + xs[0]) + "\n" + Join("\n", Bullets(xs[1..]));
        Join("\n", Bullets(xs));
      }
    }
  }

  /** A non-empty review list is formatted as a bulleted list, one review per
      line, and no review is lost. */
  lemma ReviewListFormatting(items: seq<string>)
    requires |items| > 0
    ensures FormatReviews(ReviewList(items)) == Formatted(Join("\n", Bullets(items)))
    ensures forall i :: 0 <= i < |items| ==> Contains(Join("\n", Bullets(items)), items[i])
  {
    BulletJoin(items);
    forall i | 0 <= i < |items|
      ensures Contains(Join("\n", Bullets(items)), items[i])
    {
      JoinContainsEach("\n- ", items, i);
      var body := Join("\n- ", items);
      var k := ContainsPosition(body, items[i]);
      assert ("- " + body)[2 + k..2 + k + |items[i]|] == body[k..k + |items[i]|];
      ContainsAt("- " + body, items[i], 2 + k);
    }
  }

  /** The document built for one course: its metadata and its review text. */
  datatype Document = Document(course: string, instructor: string, courseLower: string, reviewText: string)

  function DocumentFor(c: CourseRecord): Document {
    Document(c.name, c.instructor, Lower(c.name), Render(FormatReviews(c.reviews)))
  }

  /** `docs` holds exactly one document per course, in course order. */
  predicate DocumentsFor(courses: seq<CourseRecord>, docs: seq<Document>) {
    |docs| == |courses| && forall i :: 0 <= i < |courses| ==> docs[i] == DocumentFor(courses[i])
  }

  /** `create_course_documents`: no documents for no courses, otherwise one
      document per course in input order, keyed by the lower-cased name. */
  method CreateCourseDocuments(courses: seq<CourseRecord>) returns (docs: seq<Document>)
    ensures DocumentsFor(courses, docs)
    ensures forall i :: 0 <= i < |docs| ==>
      docs[i].course == courses[i].name && docs[i].instructor == courses[i].instructor
    ensures forall i :: 0 <= i < |docs| ==> docs[i].courseLower == Lower(courses[i].name)
  {
    if |courses| == 0 {
      return [];
    }
    docs := [];
    var i := 0;
    while i < |courses|
      invariant 0 <= i <= |courses|
      invariant |docs| == i
      invariant forall j :: 0 <= j < i ==> docs[j] == DocumentFor(courses[j])
    {
      docs := docs + [DocumentFor(courses[i])];
      i := i + 1;
    }
  }
}

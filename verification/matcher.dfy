/** The course matcher (`CourseMatcher` in app.py): maps a free-text query to
    at most one lower-cased course identifier, first by catalog names in load
    order, then by a fixed keyword table in insertion order. */
module Matcher {
  import opened Wrappers
  import opened Text
  import opened Catalog

  /** The keyword table of `find_course`, as (keyword, course) pairs in the
      dict's insertion order; that order decides which keyword wins. */
  const KeywordMap: seq<(string, string)> := [
    ("communication", "fundamentals of communication system"),
    ("signal processing", "digital signal processing"),
    ("dsp", "digital signal processing"),
    ("vlsi", "vlsi design"),
    ("embedded", "embedded systems design"),
    ("wireless", "wireless communication"),
    ("network", "network theory"),
    ("digital electronics", "digital electronics/ digital logic and systems"),
    ("signals", "signals and systems"),
    ("electromagnetic", "electromagnetic theory"),
    ("semiconductor", "semiconductor devices and applications"),
    ("rf simulation", "rf simulation techniques"),
    ("passive microwave", "design of passive microwave components")
  ]

  /** The keywords of the table, in its order. */
  function Keywords(): seq<string> {
    seq(|KeywordMap|, k requires 0 <= k < |KeywordMap| => KeywordMap[k].0)
  }

  /** `needles[i]` occurs in `hay` and no earlier needle does. */
  predicate FirstHitAt(hay: string, needles: seq<string>, i: nat) {
    i < |needles| && Contains(hay, needles[i])
    && forall j :: 0 <= j < i ==> !Contains(hay, needles[j])
  }

  /** The index of the first of `needles` that occurs in `hay`, if any: the
      first-hit rule both passes of `find_course` follow. */
  function FirstContained(hay: string, needles: seq<string>): (r: Option<nat>)
    ensures r.Some? ==> FirstHitAt(hay, needles, r.value)
    ensures r.None? <==> forall j :: 0 <= j < |needles| ==> !Contains(hay, needles[j])
    decreases |needles|
  {
    if |needles| == 0 then None
    else if Contains(hay, needles[0]) then Some(0)
    else
      match FirstContained(hay, needles[1..])
      case None =>
        assert forall j :: 1 <= j < |needles| ==> needles[j] == needles[1..][j - 1];
        None
      case Some(i) =>
        assert forall j :: 1 <= j <= i ==> needles[j] == needles[1..][j - 1];
        Some(i + 1)
  }

  /** At most one index is the first hit. */
  lemma FirstHitUnique(hay: string, needles: seq<string>, i: nat, j: nat)
    requires FirstHitAt(hay, needles, i) && FirstHitAt(hay, needles, j)
    ensures i == j
  {
  }

  /** The matcher's state: the loaded courses and their lower-cased names, in load order. */
  datatype CourseMatcher = CourseMatcher(courses: seq<CourseRecord>, courseNames: seq<string>)

  /** `CourseMatcher.__init__`: one lower-cased name per course, in load order. */
  function NewMatcher(courses: seq<CourseRecord>): (m: CourseMatcher)
    ensures m.courses == courses
    ensures |m.courseNames| == |courses|
    ensures forall i :: 0 <= i < |courses| ==> m.courseNames[i] == Lower(courses[i].name)
    ensures forall i :: 0 <= i < |courses| ==> IsLower(m.courseNames[i])
  {
    CourseMatcher(courses, seq(|courses|, i requires 0 <= i < |courses| => Lower(courses[i].name)))
  }

  /** No catalog name occurs in the (already lower-cased) query. */
  predicate NoDirectHit(names: seq<string>, ql: string) {
    forall i :: 0 <= i < |names| ==> !Contains(ql, names[i])
  }

  /** No keyword of the table occurs in the (already lower-cased) query. */
  predicate NoKeywordHit(ql: string) {
    forall j :: 0 <= j < |KeywordMap| ==> !Contains(ql, KeywordMap[j].0)
  }

  /** `find_course`: the first catalog name contained in the lower-cased query;
      failing that, the course of the first keyword contained in it; else `None`. */
  function FindCourse(m: CourseMatcher, query: string): (r: Option<string>)
    ensures var ql := Lower(query);
      r.None? <==> NoDirectHit(m.courseNames, ql) && NoKeywordHit(ql)
    ensures var ql := Lower(query);
      forall i: nat :: FirstHitAt(ql, m.courseNames, i) ==> r == Some(m.courseNames[i])
    ensures var ql := Lower(query);
      NoDirectHit(m.courseNames, ql) ==>
        forall k: nat :: FirstHitAt(ql, Keywords(), k) ==> r == Some(Lower(KeywordMap[k].1))
  {
    var ql := Lower(query);
    var direct := FirstContained(ql, m.courseNames);
    if direct.Some? then
      assert forall i: nat :: FirstHitAt(ql, m.courseNames, i) ==> i == direct.value by {
        forall i: nat | FirstHitAt(ql, m.courseNames, i) ensures i == direct.value {
          FirstHitUnique(ql, m.courseNames, i, direct.value);
        }
      }
      Some(m.courseNames[direct.value])
    else
      assert NoDirectHit(m.courseNames, ql);
      var keyword := FirstContained(ql, Keywords());
      if keyword.Some? then
        assert forall k: nat :: FirstHitAt(ql, Keywords(), k) ==> k == keyword.value by {
          forall k: nat | FirstHitAt(ql, Keywords(), k) ensures k == keyword.value {
            FirstHitUnique(ql, Keywords(), k, keyword.value);
          }
        }
        Some(Lower(KeywordMap[keyword.value].1))
      else
        assert forall j :: 0 <= j < |KeywordMap| ==> Keywords()[j] == KeywordMap[j].0;
        assert NoKeywordHit(ql);
        None
  }

  /** With no catalog name in the query, the earliest table keyword in it decides the result. */
  lemma KeywordPass(m: CourseMatcher, query: string, k: nat)
    requires NoDirectHit(m.courseNames, Lower(query))
    requires k < |KeywordMap| && Contains(Lower(query), KeywordMap[k].0)
    requires forall j :: 0 <= j < k ==> !Contains(Lower(query), KeywordMap[j].0)
    ensures FindCourse(m, query) == Some(Lower(KeywordMap[k].1))
  {
    assert FirstHitAt(Lower(query), Keywords(), k);
  }

  /** Matching is case-insensitive: lower-casing the query first changes nothing. */
  lemma FindCourseCaseInsensitive(m: CourseMatcher, query: string)
    ensures FindCourse(m, query) == FindCourse(m, Lower(query))
  {
    LowerIdempotent(query);
  }

  /** A result is a catalog name or the lower-cased course of a table entry,
      and is lower case whenever the catalog names are (as `NewMatcher` makes them). */
  lemma FindCourseResult(m: CourseMatcher, query: string)
    requires FindCourse(m, query).Some?
    ensures var c := FindCourse(m, query).value;
      c in m.courseNames || exists k :: 0 <= k < |KeywordMap| && c == Lower(KeywordMap[k].1)
    ensures (forall i :: 0 <= i < |m.courseNames| ==> IsLower(m.courseNames[i]))
      ==> IsLower(FindCourse(m, query).value)
  {
  }

  /** A catalog name contained in the query always beats every keyword: the
      result is then the first catalog hit, which is no later than that name,
      and never a course taken from the table. */
  lemma DirectHitBeatsKeywords(m: CourseMatcher, query: string, i: nat)
    requires i < |m.courseNames| && Contains(Lower(query), m.courseNames[i])
    ensures FindCourse(m, query).Some?
    ensures FindCourse(m, query).value in m.courseNames[..i + 1]
    ensures exists j: nat ::
              j <= i && FirstHitAt(Lower(query), m.courseNames, j) &&
              FindCourse(m, query) == Some(m.courseNames[j])
  {
    var ql := Lower(query);
    var f := FirstContained(ql, m.courseNames);
    assert f.Some? && f.value <= i;
    assert FirstHitAt(ql, m.courseNames, f.value);
    assert m.courseNames[f.value] == m.courseNames[..i + 1][f.value];
  }

  /** A catalog holding an empty course name matches every query in the first
      pass, since the empty string is a substring of everything; the keyword
      table is then never consulted. */
  lemma EmptyNameMatchesEverything(m: CourseMatcher, query: string, i: nat)
    requires i < |m.courseNames| && m.courseNames[i] == ""
    ensures FindCourse(m, query).Some?
    ensures FindCourse(m, query).value in m.courseNames[..i + 1]
  {
    ContainsEmpty(Lower(query));
    DirectHitBeatsKeywords(m, query, i);
  }
}

/** One turn of the assistant's loop, from an input line to the search the
    vector store is asked to run: classification, course matching, filter
    construction. Running the search and the language model is not modelled. */
module Assistant {
  import opened Wrappers
  import opened Text
  import opened Catalog
  import opened Matcher
  import opened Retrieval
  import opened Documents
  import opened Repl
  import opened QueryFacts

  /** What the loop does with a line: stop, prompt again, or search with a configuration. */
  datatype Action = Stop | Reprompt | Search(query: string, config: SearchConfig)

  /** The loop body of `main`: classify the line, match the stripped question
      against the catalog, and build the retriever's search arguments from the match. */
  function Step(m: CourseMatcher, line: string): (a: Action)
    ensures a.Stop? <==> Classify(line).Exit?
    ensures a.Reprompt? <==> Strip(line) == ""
    ensures a.Search? ==> a.query == Strip(line) && a.config.k == RetrievalK
    ensures a.Search? && a.config.courseLower.Some? ==>
      FindCourse(m, a.query) == a.config.courseLower && a.config.courseLower.value != ""
    ensures a.Search? && a.config.courseLower.None? ==>
      FindCourse(m, a.query) in {None, Some("")}
  {
    match Classify(line)
    case Exit => Stop
    case Skip => Reprompt
    case Ask(query) => Search(query, BuildFilter(FindCourse(m, query)))
  }

  /** A course found by name in the first pass is the `course_lower` key of one
      of the documents built from the same catalog. When that name is non-empty,
      the search filter built from it admits exactly the documents carrying
      that key. */
  lemma DirectMatchHasDocument(courses: seq<CourseRecord>, docs: seq<Document>, query: string)
    requires DocumentsFor(courses, docs)
    requires FindCourse(NewMatcher(courses), query).Some?
    requires FindCourse(NewMatcher(courses), query).value in NewMatcher(courses).courseNames
    ensures exists j :: 0 <= j < |docs| && docs[j].courseLower == FindCourse(NewMatcher(courses), query).value
    ensures FindCourse(NewMatcher(courses), query).value != "" ==>
              forall j :: 0 <= j < |docs| ==>
                (Admits(BuildFilter(FindCourse(NewMatcher(courses), query)), docs[j].courseLower) <==>
                 docs[j].courseLower == FindCourse(NewMatcher(courses), query).value)
  {
    var m := NewMatcher(courses);
    var c := FindCourse(m, query).value;
    var j :| 0 <= j < |m.courseNames| && m.courseNames[j] == c;
    assert docs[j] == DocumentFor(courses[j]);
  }

  /** A catalog whose first course has an empty name turns every question into
      an unfiltered search: the match is `""`, which is falsy, so no filter is added. */
  lemma EmptyFirstNameDisablesFilter(m: CourseMatcher, line: string)
    requires |m.courseNames| > 0 && m.courseNames[0] == ""
    requires Classify(line).Ask?
    ensures Step(m, line) == Search(Strip(line), SearchConfig(RetrievalK, None))
  {
    ContainsEmpty(Lower(Strip(line)));
    assert FindCourse(m, Strip(line)) == Some("");
  }

  /** "who teaches vlsi design", in any letter case and padding and with no
      catalog name in it, is matched through the keyword `vlsi` and searched
      within the `vlsi design` documents only. */
  lemma VlsiScenario(m: CourseMatcher, line: string)
    requires Lower(Strip(line)) == "who teaches vlsi design"
    requires NoDirectHit(m.courseNames, "who teaches vlsi design")
    ensures Step(m, line) == Search(Strip(line), SearchConfig(3, Some("vlsi design")))
  {
    VlsiQueryKeywords();
    KeywordPass(m, Strip(line), 3);
  }

  /** "tell me about network theory basics", in any letter case and with no
      catalog name in it, is matched through the keyword `network` to `network theory`. */
  lemma NetworkScenario(m: CourseMatcher, query: string)
    requires Lower(query) == "tell me about network theory basics"
    requires NoDirectHit(m.courseNames, "tell me about network theory basics")
    ensures FindCourse(m, query) == Some("network theory")
  {
    NetworkQueryKeywords();
    KeywordPass(m, query, 6);
  }

  /** "wireless communication", in any letter case and with no catalog name in
      it, goes to the communication-systems course: `communication` precedes
      `wireless` in the table, so the earlier keyword wins though both occur. */
  lemma WirelessScenario(m: CourseMatcher, query: string)
    requires Lower(query) == "wireless communication"
    requires NoDirectHit(m.courseNames, "wireless communication")
    ensures FindCourse(m, query) == Some("fundamentals of communication system")
  {
    WirelessQueryKeywords();
    KeywordPass(m, query, 0);
  }

  /** "what courses are hard", in any letter case and padding and with no
      catalog name in it, matches no keyword either, so the search spans the whole index. */
  lemma UnfilteredScenario(m: CourseMatcher, line: string)
    requires Lower(Strip(line)) == "what courses are hard"
    requires NoDirectHit(m.courseNames, "what courses are hard")
    ensures Step(m, line) == Search(Strip(line), SearchConfig(3, None))
  {
    HardQueryKeywords();
  }

  /** A tab, "QUIT" and a space stop the loop. */
  lemma QuitScenario(m: CourseMatcher)
    ensures Step(m, "\tQUIT ") == Stop
  {
    assert "\tQUIT " == "\t" + "QUIT" + " ";
    StopWordsAnyCase("\t", "QUIT", " ");
  }
}

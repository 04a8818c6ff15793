/** Which keywords of the matcher's table occur in a few sample questions,
    chosen to exercise the `communication`, `vlsi`, `wireless` and `network`
    entries and a question no entry matches. These literal facts serve the
    scenario lemmas of `Assistant`. */
module QueryFacts {
  import opened Text
  import opened Matcher

  /** In "who teaches vlsi design" the first table keyword is `vlsi`, the fourth
      entry: each earlier keyword has a letter the question lacks. */
  lemma VlsiQueryKeywords()
    ensures forall k :: 0 <= k < 3 ==> !Contains("who teaches vlsi design", KeywordMap[k].0)
    ensures Contains("who teaches vlsi design", KeywordMap[3].0)
    ensures Lower(KeywordMap[3].1) == "vlsi design"
  {
    var ql := "who teaches vlsi design";
    ContainsAt(ql, KeywordMap[3].0, 12);
    forall k | 0 <= k < 3
      ensures !Contains(ql, KeywordMap[k].0)
    {
      // the lacking letters: m, p, p
      var missing := [2, 7, 2];
      MissingCharNotContained(ql, KeywordMap[k].0, missing[k]);
    }
  }

  /** `communication` does not occur in "tell me about network theory basics":
      its first letter occurs there only where it cannot start. */
  lemma NetworkQueryNoCommunication()
    ensures !Contains("tell me about network theory basics", "communication")
  {
    SingleCandidateNotContained("tell me about network theory basics", "communication", 33);
  }

  /** `wireless` does not occur in "tell me about network theory basics": its
      first letter occurs there only in "work the". */
  lemma NetworkQueryNoWireless()
    ensures !Contains("tell me about network theory basics", "wireless")
  {
    var ql := "tell me about network theory basics";
    assert ql[17..25][1] != "wireless"[1];
    SingleCandidateNotContained(ql, "wireless", 17);
  }

  /** In "tell me about network theory basics" the first table keyword is
      `network`, the seventh entry. */
  lemma NetworkQueryKeywords()
    ensures forall k :: 0 <= k < 6 ==> !Contains("tell me about network theory basics", KeywordMap[k].0)
    ensures Contains("tell me about network theory basics", KeywordMap[6].0)
    ensures Lower(KeywordMap[6].1) == "network theory"
  {
    var ql := "tell me about network theory basics";
    ContainsAt(ql, KeywordMap[6].0, 14);
    NetworkQueryNoCommunication();
    NetworkQueryNoWireless();
    forall k | 1 <= k < 5
      ensures !Contains(ql, KeywordMap[k].0)
    {
      // entry 0 is handled above; the lacking letters of entries 1-4: g, d, v, d
      var missing := [0, 2, 0, 0, 4];
      MissingCharNotContained(ql, KeywordMap[k].0, missing[k]);
    }
    assert KeywordMap[0].0 == "communication" && KeywordMap[5].0 == "wireless";
  }

  /** The course the `communication` keyword maps to is already lower case. */
  lemma CommunicationCourseLower()
    ensures Lower(KeywordMap[0].1) == "fundamentals of communication system"
  {
    LowerConcat("fundamentals of ", "communication system");
  }

  /** "wireless communication" holds both the first table keyword,
      `communication`, and the sixth, `wireless`. */
  lemma WirelessQueryKeywords()
    ensures Contains("wireless communication", KeywordMap[0].0)
    ensures Contains("wireless communication", KeywordMap[5].0)
    ensures Lower(KeywordMap[0].1) == "fundamentals of communication system"
  {
    var ql := "wireless communication";
    assert KeywordMap[0].0 == "communication" == ql[9..22];
    ContainsAt(ql, KeywordMap[0].0, 9);
    assert KeywordMap[5].0 == "wireless" == ql[0..8];
    ContainsAt(ql, KeywordMap[5].0, 0);
    CommunicationCourseLower();
  }

  /** No table keyword occurs in "what courses are hard": each has a letter the question lacks. */
  lemma HardQueryKeywords()
    ensures NoKeywordHit("what courses are hard")
  {
    var ql := "what courses are hard";
    forall k | 0 <= k < |KeywordMap|
      ensures !Contains(ql, KeywordMap[k].0)
    {
      // the lacking letters: m, i, p, v, m, i, n, i, i, l, m, f, p
      var missing := [2, 1, 2, 0, 1, 1, 0, 1, 1, 1, 2, 1, 0];
      MissingCharNotContained(ql, KeywordMap[k].0, missing[k]);
    }
  }
}

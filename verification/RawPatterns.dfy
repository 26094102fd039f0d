/** The matcher against its patterns as they are given, before their bytes outside ASCII are skipped. */
module RawPatterns {
  import opened Bytes
  import opened AhoCorasick

  /** Some non-empty pattern, taken as it is, occurs in the haystack. */
  ghost predicate RawOccurs(patterns: seq<Text>, haystack: Text) {
    exists i :: 0 <= i < |patterns| && patterns[i] != [] && Occurs(patterns[i], haystack)
  }

  /** A non-empty ASCII pattern is contained in `p`. */
  ghost predicate Covered(patterns: seq<Text>, p: Text) {
    exists k :: 0 <= k < |patterns| && patterns[k] != [] && IsAscii(patterns[k]) && Occurs(patterns[k], p)
  }

  /** Every non-empty pattern that is not all ASCII contains a non-empty one that is. */
  ghost predicate AllCovered(patterns: seq<Text>) {
    forall i :: 0 <= i < |patterns| && patterns[i] != [] && !IsAscii(patterns[i]) ==> Covered(patterns, patterns[i])
  }

  lemma CoveredOccurs(patterns: seq<Text>, p: Text, haystack: Text)
    requires Covered(patterns, p) && Occurs(p, haystack)
    ensures RawOccurs(patterns, haystack) && SomePatternOccurs(patterns, haystack)
  {
    var k :| 0 <= k < |patterns| && patterns[k] != [] && IsAscii(patterns[k]) && Occurs(patterns[k], p);
    OccursTrans(patterns[k], p, haystack);
    assert AsciiOf(patterns[k]) == patterns[k];
  }

  lemma CoveredProjects(patterns: seq<Text>, p: Text)
    requires Covered(patterns, p)
    ensures Covered(patterns, AsciiOf(p)) && AsciiOf(p) != []
  {
    var k :| 0 <= k < |patterns| && patterns[k] != [] && IsAscii(patterns[k]) && Occurs(patterns[k], p);
    AsciiSurvives(patterns[k], p);
  }

  /** With every pattern covered, projecting the patterns changes nothing on any text. */
  lemma CoveredAgree(patterns: seq<Text>, haystack: Text)
    requires AllCovered(patterns)
    ensures Projectable(patterns) && (SomePatternOccurs(patterns, haystack) <==> RawOccurs(patterns, haystack))
  {
    forall i | 0 <= i < |patterns| && patterns[i] != []
      ensures AsciiOf(patterns[i]) != []
      ensures Occurs(patterns[i], haystack) ==> SomePatternOccurs(patterns, haystack)
      ensures Occurs(AsciiOf(patterns[i]), haystack) ==> RawOccurs(patterns, haystack)
    {
      var p := patterns[i];
      if IsAscii(p) {
        assert AsciiOf(p) == p;
      } else {
        CoveredProjects(patterns, p);
        if Occurs(p, haystack) {
          CoveredOccurs(patterns, p, haystack);
        }
        if Occurs(AsciiOf(p), haystack) {
          CoveredOccurs(patterns, AsciiOf(p), haystack);
        }
      }
    }
  }

  /** A pattern without ASCII bytes is not even found in itself. */
  lemma UnprojectableMissed(patterns: seq<Text>, i: nat)
    requires i < |patterns| && patterns[i] != [] && AsciiOf(patterns[i]) == [] && IsBytes(patterns[i])
    ensures RawOccurs(patterns, patterns[i]) && !Scans(patterns, patterns[i])
  {
    var p := patterns[i];
    OccursInItself(p);
    forall j | 0 <= j < |p| ensures p[j] >= 128 {
      if p[j] < 128 {
        assert [p[j]] == p[j..j + 1] && OccursAt([p[j]], p, j);
        AsciiSurvives([p[j]], p);
      }
    }
  }

  ghost predicate AgreesOn(patterns: seq<Text>, t: Text) {
    Scans(patterns, t) <==> RawOccurs(patterns, t)
  }

  /** Scanning finds every occurrence of a pattern as it is, and nothing else. */
  ghost predicate AgreesEverywhere(patterns: seq<Text>) {
    forall t {:trigger AgreesOn(patterns, t)} :: IsBytes(t) ==> AgreesOn(patterns, t)
  }

  ghost predicate BytePatterns(patterns: seq<Text>) {
    forall i :: 0 <= i < |patterns| ==> IsBytes(patterns[i])
  }

  lemma AgreementProjects(patterns: seq<Text>)
    requires BytePatterns(patterns) && AgreesEverywhere(patterns)
    ensures Projectable(patterns)
  {
    forall j | 0 <= j < |patterns| ensures patterns[j] == [] || AsciiOf(patterns[j]) != [] {
      assert AgreesOn(patterns, patterns[j]);
      if patterns[j] != [] && AsciiOf(patterns[j]) == [] {
        UnprojectableMissed(patterns, j);
      }
    }
  }

  /** Whatever raw pattern occurs in a text, some projection does, and the other way round. */
  lemma AgreementTransfers(patterns: seq<Text>, t: Text)
    requires BytePatterns(patterns) && AgreesEverywhere(patterns) && IsBytes(t)
    ensures RawOccurs(patterns, t) <==> SomePatternOccurs(patterns, t)
  {
    AgreementProjects(patterns);
    ScansWhenProjectable(patterns, t);
    assert AgreesOn(patterns, t);
  }

  lemma AgreementCovers(patterns: seq<Text>, i: nat)
    requires BytePatterns(patterns) && AgreesEverywhere(patterns) && i < |patterns| && patterns[i] != []
    ensures Covered(patterns, patterns[i])
  {
    var p := patterns[i];
    OccursInItself(p);
    AgreementTransfers(patterns, p);
    var j :| 0 <= j < |patterns| && patterns[j] != [] && Occurs(AsciiOf(patterns[j]), p);
    var a := AsciiOf(patterns[j]);
    OccursInItself(a);
    AgreementTransfers(patterns, a);
    var k :| 0 <= k < |patterns| && patterns[k] != [] && Occurs(patterns[k], a);
    OccursInAscii(patterns[k], a);
    OccursTrans(patterns[k], a, p);
  }

  /**
   * Scanning agrees with substring search of the patterns as they are, on every text, exactly when every non-empty
   * pattern with a byte outside ASCII contains a non-empty ASCII pattern.
   */
  lemma RawAgreementCondition(patterns: seq<Text>)
    requires BytePatterns(patterns)
    ensures AgreesEverywhere(patterns) <==> AllCovered(patterns)
  {
    if AllCovered(patterns) {
      forall t | IsBytes(t) ensures AgreesOn(patterns, t) {
        CoveredAgree(patterns, t);
        ScansWhenProjectable(patterns, t);
      }
    }
    if AgreesEverywhere(patterns) {
      forall i | 0 <= i < |patterns| && patterns[i] != [] && !IsAscii(patterns[i])
        ensures Covered(patterns, patterns[i])
      {
        AgreementCovers(patterns, i);
      }
    }
  }
}

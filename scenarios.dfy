/**
 * Worked lines of a build script: declarations from the plugin's own
 * functional test, rewritten by the replacers the catalog gives them. The
 * plain and the `test` variant of `group1:name1` are rewritten in either
 * order of their replacers, since that order is a hash-set order.
 */
module Scenarios {
  import opened Wrappers
  import opened Entries
  import opened Replacers
  import opened Rewriter

  const OtherArtifact := LibraryEntry("version-group", "other-artifact", Ref("version-group"), {None})
  const Name1 := LibraryEntry("group1", "name1", Literal("4.1.5"), {None, Some("test")})

  /** The replacer of `other-artifact`, and the plain and `test` replacers of `name1`. */
  function OtherReplacer(): BuildGradleReplacer { NewReplacer("other-artifact", OtherArtifact, None) }
  function PlainName1(): BuildGradleReplacer { NewReplacer("name1", Name1, None) }
  function TestName1(): BuildGradleReplacer { NewReplacer("name1", Name1, Some("test")) }

  /** `<q>group:name:version[:classifier]<q>`, a quoted declaration as a build script writes it. */
  function Declaration(q: char, group: string, name: string, version: string, classifier: Option<string>): string {
    [q] + (group + ":" + name + (":" + version + (ClassifierText(classifier) + [q])))
  }

  /** `  testImplementation 'version-group:other-artifact:1.2.3'` */
  const OtherLine := "  testImplementation" + " " + Declaration('\'', "version-group", "other-artifact", "1.2.3", None)
  /** `  testImplementation("group1:name1:4.1.5")` */
  const PlainLine := "  testImplementation" + "(" + Declaration('"', "group1", "name1", "4.1.5", None) + ")"
  /** `  testRuntimeOnly("group1:name1:4.1.5:test")` */
  const TestLine := "  testRuntimeOnly" + "(" + Declaration('"', "group1", "name1", "4.1.5", Some("test")) + ")"

  /** `  testImplementation(libs.other.artifact)` */
  const OtherRewritten := "  testImplementation" + ("(libs." + "other.artifact" + ")")
  /** `  testImplementation(libs.name1)` */
  const PlainRewritten := "  testImplementation" + ("(libs." + "name1" + ")")
  /** `  testRuntimeOnly(libs.name1) { artifact { classifier = 'test' } }` */
  const TestRewritten := "  testRuntimeOnly" + ("(libs." + "name1" + ")" + " { artifact { classifier = '" + "test" + "' } }")

  // ------------------------------------------------------- the texts in parts

  lemma QuoteFreeText(s: string)
    requires '"' !in s && '\'' !in s
    ensures NoQuotes(s)
  {
    forall i | 0 <= i < |s| ensures !IsQuote(s[i]) {
      assert s[i] in s;
    }
  }

  lemma DottedPath(k: string, a: string)
    requires k == "other-artifact" && a == "other.artifact"
    ensures DashesToDots(k) == a
  {
    forall i | 0 <= i < |k| ensures DashesToDots(k)[i] == a[i] {
    }
  }

  lemma PlainPath(k: string)
    requires k == "name1"
    ensures DashesToDots(k) == k
  {
    forall i | 0 <= i < |k| ensures DashesToDots(k)[i] == k[i] {
    }
  }

  lemma OtherParts()
    ensures OtherLine == "  testImplementation" + " " + Declared(OtherReplacer().pattern, '\'', "1.2.3", '\'') + "" + ""
    ensures OtherRewritten == "  testImplementation" + OtherReplacer().replacement + ""
    ensures VersionFits(OtherReplacer().pattern, "1.2.3")
    ensures QuietPrefix("  testImplementation")
  {
    DottedPath("other-artifact", "other.artifact");
    QuoteFreeText("  testImplementation");
  }

  lemma Name1Parts()
    ensures PlainLine == "  testImplementation" + "(" + Declared(PlainName1().pattern, '"', "4.1.5", '"') + ")" + ""
    ensures TestLine == "  testRuntimeOnly" + "(" + Declared(TestName1().pattern, '"', "4.1.5", '"') + ")" + ""
    ensures PlainLine == "  testImplementation" + "(" + Declared(TestName1().pattern.(classifier := None), '"', "4.1.5", '"') + ")" + ""
    ensures TestLine == "  testRuntimeOnly" + "(" + Declared(PlainName1().pattern.(classifier := Some("test")), '"', "4.1.5", '"') + ")" + ""
    ensures PlainRewritten == "  testImplementation" + PlainName1().replacement + ""
    ensures TestRewritten == "  testRuntimeOnly" + TestName1().replacement + ""
    ensures VersionFits(PlainName1().pattern, "4.1.5") && VersionFits(TestName1().pattern, "4.1.5")
  {
    PlainPath("name1");
  }

  lemma QuoteFreeParts()
    ensures QuietPrefix("  testImplementation") && QuietPrefix("  testRuntimeOnly")
    ensures NoQuotes(")" + "") && NoQuotes("4.1.5")
    ensures NoQuotes(Coordinate(PlainName1().pattern)) && NoQuotes(Coordinate(TestName1().pattern))
    ensures NoQuotes(ClassifierText(None)) && NoQuotes(ClassifierText(Some("test")))
  {
    QuietPrefixes();
    QuoteFreeSmall();
    QuoteFreeCoordinate(Coordinate(PlainName1().pattern));
  }

  lemma QuoteFreeSmall()
    ensures NoQuotes(")" + "") && NoQuotes("4.1.5")
    ensures NoQuotes(ClassifierText(None)) && NoQuotes(ClassifierText(Some("test")))
  {
    QuoteFreeText(")" + "");
    QuoteFreeText("4.1.5");
    QuoteFreeText(ClassifierText(Some("test")));
  }

  lemma QuoteFreeCoordinate(c: string)
    requires c == "group1" + ":" + "name1"
    ensures NoQuotes(c)
  {
    QuoteFreeText(c);
  }

  lemma QuietPrefixes()
    ensures QuietPrefix("  testImplementation") && QuietPrefix("  testRuntimeOnly")
  {
    QuoteFreeText("  testImplementation");
    QuoteFreeText("  testRuntimeOnly");
  }

  lemma PlainRewrittenQuoteFree()
    ensures NoQuotes(PlainRewritten)
  {
    QuoteFreeText(PlainRewritten);
  }

  lemma TestRewrittenColonFree()
    ensures ':' !in TestRewritten
  {
  }

  // ------------------------------------------------------- one replacer, one line

  /** `  testImplementation 'version-group:other-artifact:1.2.3'` becomes `  testImplementation(libs.other.artifact)`. */
  lemma OtherLineRewritten()
    ensures Replace(OtherReplacer(), OtherLine) == OtherRewritten
  {
    OtherParts();
    ReplaceDeclaration(OtherReplacer(), "  testImplementation", " ", '\'', "1.2.3", '\'', "", "");
  }

  lemma PlainReplacesPlainLine()
    ensures Replace(PlainName1(), PlainLine) == PlainRewritten
  {
    Name1Parts();
    QuoteFreeParts();
    ReplaceDeclaration(PlainName1(), "  testImplementation", "(", '"', "4.1.5", '"', ")", "");
  }

  lemma TestKeepsPlainLine()
    ensures Replace(TestName1(), PlainLine) == PlainLine
  {
    Name1Parts();
    QuoteFreeParts();
    OtherClassifierUnchanged(TestName1(), "  testImplementation", "(", '"', "4.1.5", None, '"', ")", "");
  }

  lemma TestReplacesTestLine()
    ensures Replace(TestName1(), TestLine) == TestRewritten
  {
    Name1Parts();
    QuoteFreeParts();
    ReplaceDeclaration(TestName1(), "  testRuntimeOnly", "(", '"', "4.1.5", '"', ")", "");
  }

  lemma PlainKeepsTestLine()
    ensures Replace(PlainName1(), TestLine) == TestLine
  {
    Name1Parts();
    QuoteFreeParts();
    OtherClassifierUnchanged(PlainName1(), "  testRuntimeOnly", "(", '"', "4.1.5", Some("test"), '"', ")", "");
  }

  // ------------------------------------------------------- both replacers, either order

  lemma ApplyTwo(a: BuildGradleReplacer, b: BuildGradleReplacer, line: string)
    ensures ApplyAll([a, b], line) == Replace(b, Replace(a, line))
  {
    assert [a, b][..1] == [a];
    assert [a][..0] == [];
    assert ApplyAll([a], line) == Replace(a, ApplyAll([], line));
  }

  /**
   * `  testImplementation("group1:name1:4.1.5")` becomes
   * `  testImplementation(libs.name1)` whichever of the two replacers runs
   * first: the `test` one leaves the plain declaration alone, and the
   * rewritten line has no quote left to match.
   */
  lemma PlainLineEitherOrder()
    ensures ApplyAll([PlainName1(), TestName1()], PlainLine) == PlainRewritten
    ensures ApplyAll([TestName1(), PlainName1()], PlainLine) == PlainRewritten
  {
    ApplyTwo(PlainName1(), TestName1(), PlainLine);
    ApplyTwo(TestName1(), PlainName1(), PlainLine);
    PlainReplacesPlainLine();
    TestKeepsPlainLine();
    PlainRewrittenQuoteFree();
    QuotelessLineUnchanged(TestName1(), PlainRewritten);
  }

  /**
   * `  testRuntimeOnly("group1:name1:4.1.5:test")` becomes
   * `  testRuntimeOnly(libs.name1) { artifact { classifier = 'test' } }`
   * whichever of the two replacers runs first: the plain one leaves the
   * `test` declaration alone, and the rewritten line has no colon left.
   */
  lemma TestLineEitherOrder()
    ensures ApplyAll([PlainName1(), TestName1()], TestLine) == TestRewritten
    ensures ApplyAll([TestName1(), PlainName1()], TestLine) == TestRewritten
  {
    ApplyTwo(PlainName1(), TestName1(), TestLine);
    ApplyTwo(TestName1(), PlainName1(), TestLine);
    TestReplacesTestLine();
    PlainKeepsTestLine();
    TestRewrittenColonFree();
    ColonlessLineUnchanged(PlainName1(), TestRewritten);
  }
}

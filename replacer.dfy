/**
 * `BuildGradleReplacer`: finds the first declaration of one library
 * coordinate in a line of a build script and replaces it with the catalog
 * accessor. The pattern the source compiles has a fixed shape
 *
 *   ` ?\(?["']` group `:` name [`:` (`[^"'$:]+` | `\$\{.*\}`)] [`:` classifier] `["']\)?`
 *
 * and `replaceFirst` takes its leftmost match. The shape is modelled
 * directly, one matcher per part: each takes the text from some position on
 * and gives the text left after its match, if there is one.
 */
module Replacers {
  import opened Wrappers
  import opened Text
  import opened Entries

  predicate IsQuote(c: char) {
    c == '"' || c == '\''
  }

  /** The characters `.` does not match in a Java pattern without flags. */
  predicate IsLineTerminator(c: char) {
    c == '\n' || c == '\r' || c == '\U{0085}' || c == '\U{2028}' || c == '\U{2029}'
  }

  /** `[^"'$:]`: a character of a fixed version. */
  predicate InVersionRun(c: char) {
    c != '"' && c != '\'' && c != '$' && c != ':'
  }

  /**
   * How the body of a `${...}` interpolation is matched: `.*` as written
   * (greedy, so the last closing brace that lets the rest match), or `[^}]*`
   * (the first closing brace).
   */
  datatype BraceRule = GreedyBraces | FirstBrace

  /** What the pattern of one replacer looks for. */
  datatype LinePattern = LinePattern(group: string, name: string, versioned: bool,
                                     classifier: Option<string>, braces: BraceRule)

  /** The coordinate text the pattern quotes literally. */
  function Coordinate(p: LinePattern): string {
    p.group + ":" + p.name
  }

  /** The classifier part of the pattern: `:classifier`, or nothing. */
  function ClassifierText(c: Option<string>): string {
    if c.None? then "" else ":" + c.value
  }

  /** The literal text `w` at the start of `t`: what follows it, if it is there. */
  function MatchText(t: string, w: string): (r: Option<string>)
    ensures r.Some? ==> |r.value| == |t| - |w|
    decreases |w|
  {
    if w == [] then Some(t)
    else if t != [] && t[0] == w[0] then MatchText(t[1..], w[1..])
    else None
  }

  /** `["']\)?`: the closing quote and the parenthesis, if there is one. */
  function MatchClose(t: string): (r: Option<string>)
    ensures r.Some? ==> |r.value| < |t|
  {
    if t != [] && IsQuote(t[0]) then
      if |t| > 1 && t[1] == ')' then Some(t[2..]) else Some(t[1..])
    else None
  }

  /** `[:classifier]["']\)?` */
  function MatchTail(p: LinePattern, t: string): (r: Option<string>)
    ensures r.Some? ==> |r.value| < |t|
  {
    match MatchText(t, ClassifierText(p.classifier))
    case None => None
    case Some(u) => MatchClose(u)
  }

  /** What follows the run of version characters `t` starts with. */
  function RunRest(t: string): (r: string)
    ensures |r| <= |t|
    decreases |t|
  {
    if t != [] && InVersionRun(t[0]) then RunRest(t[1..]) else t
  }

  /** `t` from its first closing brace on, or nothing when it has none. */
  function BraceRest(t: string): (r: string)
    ensures |r| <= |t|
    decreases |t|
  {
    if t != [] && t[0] != '}' then BraceRest(t[1..]) else t
  }

  /**
   * `.*\}` and the tail, as Java backtracks through them: `.*` first takes
   * the whole line, then gives characters back until a closing brace is
   * followed by a tail that matches; so the last such brace before the end
   * of the line wins.
   */
  function GreedyBody(p: LinePattern, t: string): (r: Option<string>)
    ensures r.Some? ==> |r.value| < |t|
    decreases |t|
  {
    if t == [] then None
    else
      var later := if !IsLineTerminator(t[0]) then GreedyBody(p, t[1..]) else None;
      if later.Some? then later
      else if t[0] == '}' then MatchTail(p, t[1..])
      else None
  }

  /** The interpolation body after `${`, its closing brace and the tail. */
  function MatchInterpolation(p: LinePattern, t: string): (r: Option<string>)
    ensures r.Some? ==> |r.value| < |t|
  {
    match p.braces
    case GreedyBraces => GreedyBody(p, t)
    case FirstBrace =>
      var b := BraceRest(t);
      if b != [] then MatchTail(p, b[1..]) else None
  }

  /**
   * `([^"'$:]+|\$\{.*\})` and the tail. The run is taken whole: a shorter
   * run is followed by a version character, which neither a colon nor a
   * quote is.
   */
  function MatchVersion(p: LinePattern, t: string): (r: Option<string>)
    ensures r.Some? ==> |r.value| < |t|
  {
    if t != [] && InVersionRun(t[0]) then MatchTail(p, RunRest(t))
    else if |t| >= 2 && t[0] == '$' && t[1] == '{' then MatchInterpolation(p, t[2..])
    else None
  }

  /** What the pattern matches after the coordinate: the version, if it has one, and the tail. */
  function MatchAfterCoordinate(p: LinePattern, t: string): (r: Option<string>)
    ensures r.Some? ==> |r.value| < |t|
  {
    if !p.versioned then MatchTail(p, t)
    else if t != [] && t[0] == ':' then MatchVersion(p, t[1..])
    else None
  }

  /** The match from its opening quote on. */
  function MatchQuoted(p: LinePattern, t: string): (r: Option<string>)
    ensures r.Some? ==> |r.value| < |t|
  {
    if t != [] && IsQuote(t[0]) then
      match MatchText(t[1..], Coordinate(p))
      case None => None
      case Some(u) => MatchAfterCoordinate(p, u)
    else None
  }

  /**
   * The match at the start of `t`. The optional space and parenthesis are
   * taken when present: giving them back can never produce the quote the
   * pattern needs next.
   */
  function MatchAt(p: LinePattern, t: string): (r: Option<string>)
    ensures r.Some? ==> |r.value| < |t|
  {
    var a := if t != [] && t[0] == ' ' then t[1..] else t;
    var b := if a != [] && a[0] == '(' then a[1..] else a;
    MatchQuoted(p, b)
  }

  /** The leftmost match in `s`: where it starts and what follows it. */
  function Find(p: LinePattern, s: string): (r: Option<(nat, string)>)
    ensures r.Some? ==> r.value.0 + |r.value.1| < |s|
    decreases |s|
  {
    if MatchAt(p, s).Some? then Some((0, MatchAt(p, s).value))
    else if s == [] then None
    else
      match Find(p, s[1..])
      case None => None
      case Some((b, rest)) => Some((b + 1, rest))
  }

  /** A replacer: the pattern and the literal replacement text. */
  datatype BuildGradleReplacer = BuildGradleReplacer(pattern: LinePattern, replacement: string)

  /** `tomlId.replaceAll("-", ".")`: the accessor path of a catalog key. */
  function DashesToDots(k: string): (r: string)
    ensures |r| == |k|
    ensures forall i | 0 <= i < |k| :: r[i] == (if k[i] == '-' then '.' else k[i])
  {
    MapChar(k, '-', '.')
  }

  /** The accessor path read back as a catalog key. */
  function DotsToDashes(a: string): (r: string)
    ensures |r| == |a|
    ensures forall i | 0 <= i < |a| :: r[i] == (if a[i] == '.' then '-' else a[i])
  {
    MapChar(a, '.', '-')
  }

  /** A catalog key without dots is recovered from its accessor path. */
  lemma AccessorPathRoundTrip(k: string)
    requires '.' !in k
    ensures DotsToDashes(DashesToDots(k)) == k
  {
    var r := DotsToDashes(DashesToDots(k));
    forall i | 0 <= i < |k| ensures r[i] == k[i] {
      assert k[i] != '.';
    }
  }

  /** The text the build script gets instead of the declaration. */
  function Replacement(tomlId: string, classifier: Option<string>): (r: string)
    ensures StartsWith(r, "(libs." + DashesToDots(tomlId) + ")")
    ensures classifier.None? <==> |r| == |tomlId| + 7
    ensures classifier.Some? ==> r[|tomlId| + 7..] == ClassifierBlockOpen + classifier.value + ClassifierBlockClose
  {
    var inner := "(libs." + DashesToDots(tomlId) + ")";
    if classifier.None? then inner
    else
      var r := inner + ClassifierBlockOpen + classifier.value + ClassifierBlockClose;
      assert r == inner + (ClassifierBlockOpen + classifier.value + ClassifierBlockClose);
      r
  }

  const ClassifierBlockOpen: string := " { artifact { classifier = '"
  const ClassifierBlockClose: string := "' } }"

  /** The replacement names its classifier: two classifiers of one key never share a replacement. */
  lemma ReplacementKeepsClassifier(tomlId: string, c1: Option<string>, c2: Option<string>)
    requires Replacement(tomlId, c1) == Replacement(tomlId, c2)
    ensures c1 == c2
  {
    if c1.Some? && c2.Some? {
      var r := Replacement(tomlId, c1)[|tomlId| + 7..];
      var n := |ClassifierBlockOpen|;
      assert r[n..|r| - |ClassifierBlockClose|] == c1.value;
      assert (ClassifierBlockOpen + c2.value + ClassifierBlockClose)[n..|r| - |ClassifierBlockClose|] == c2.value;
    }
  }

  /**
   * The constructor: the pattern looks for the entry's group and name, with
   * a version when the entry has one and with the classifier when there is
   * one; `braces` chooses how an interpolated version is matched.
   */
  function NewReplacerWith(braces: BraceRule, tomlId: string, entry: LibraryEntry,
                           classifier: Option<string>): (r: BuildGradleReplacer)
    ensures r.pattern.group == entry.group && r.pattern.name == entry.name
    ensures r.pattern.versioned <==> entry.HasVersion()
    ensures r.pattern.classifier == classifier && r.pattern.braces == braces
    ensures r.replacement == Replacement(tomlId, classifier)
  {
    BuildGradleReplacer(LinePattern(entry.group, entry.name, entry.HasVersion(), classifier, braces),
                        Replacement(tomlId, classifier))
  }

  /** The replacer the rest of the model uses: interpolations end at their first brace. */
  function NewReplacer(tomlId: string, entry: LibraryEntry, classifier: Option<string>): (r: BuildGradleReplacer)
    ensures r == NewReplacerWith(FirstBrace, tomlId, entry, classifier)
  {
    NewReplacerWith(FirstBrace, tomlId, entry, classifier)
  }

  /** `replace`: the first match replaced, or the line unchanged when there is none. */
  function Replace(r: BuildGradleReplacer, line: string): (out: string)
    ensures Find(r.pattern, line).None? ==> out == line
    ensures Find(r.pattern, line).Some? ==>
      var (b, rest) := Find(r.pattern, line).value;
      out == line[..b] + r.replacement + rest
  {
    match Find(r.pattern, line)
    case None => line
    case Some((b, rest)) => line[..b] + r.replacement + rest
  }

  // ------------------------------------------------------- the parts of a match

  predicate NoQuotes(s: string) {
    forall i | 0 <= i < |s| :: !IsQuote(s[i])
  }

  /** A literal followed by anything is found, and what follows it is the rest. */
  lemma {:induction false} LiteralPrefix(w: string, rest: string)
    ensures MatchText(w + rest, w) == Some(rest)
    decreases |w|
  {
    if w != [] {
      assert (w + rest)[0] == w[0];
      assert (w + rest)[1..] == w[1..] + rest;
      LiteralPrefix(w[1..], rest);
    } else {
      assert w + rest == rest;
    }
  }

  /** Where a literal is found, the text is the literal followed by what `Literal` gives. */
  lemma {:induction false} LiteralSome(t: string, w: string)
    requires MatchText(t, w).Some?
    ensures t == w + MatchText(t, w).value
    decreases |w|
  {
    if w != [] {
      LiteralSome(t[1..], w[1..]);
      assert t == [t[0]] + t[1..];
      assert w == [w[0]] + w[1..];
    }
  }

  /** A literal is not found where the text lacks or differs from its character `k`. */
  lemma {:induction false} LiteralMissing(t: string, w: string, k: nat)
    requires k < |w| && (k < |t| ==> t[k] != w[k])
    ensures MatchText(t, w).None?
    decreases k
  {
    if k > 0 && t != [] && t[0] == w[0] {
      LiteralMissing(t[1..], w[1..], k - 1);
    }
  }

  lemma {:induction false} RunRestIs(v: string, tail: string)
    requires forall k | 0 <= k < |v| :: InVersionRun(v[k])
    requires tail == [] || !InVersionRun(tail[0])
    ensures RunRest(v + tail) == tail
    decreases |v|
  {
    if v != [] {
      assert (v + tail)[0] == v[0];
      assert (v + tail)[1..] == v[1..] + tail;
      RunRestIs(v[1..], tail);
    } else {
      assert v + tail == tail;
    }
  }

  lemma {:induction false} BraceRestIs(body: string, rest: string)
    requires '}' !in body && rest != [] && rest[0] == '}'
    ensures BraceRest(body + rest) == rest
    decreases |body|
  {
    if body != [] {
      assert (body + rest)[0] == body[0];
      assert (body + rest)[1..] == body[1..] + rest;
      BraceRestIs(body[1..], rest);
    } else {
      assert body + rest == rest;
    }
  }

  /** What may follow the closing quote: the parenthesis the pattern takes, or text that does not start with one. */
  predicate Closing(close: string, post: string) {
    close == ")" || (close == [] && (post == [] || post[0] != ')'))
  }

  lemma CloseMatches(q: char, close: string, post: string)
    requires IsQuote(q) && Closing(close, post)
    ensures MatchClose([q] + (close + post)) == Some(post)
  {
    var t := [q] + (close + post);
    ConsParts(q, close + post);
    if close == ")" {
      ConsParts(')', post);
    } else {
      assert close + post == post;
    }
  }

  lemma TailMatches(p: LinePattern, q: char, close: string, post: string)
    requires IsQuote(q) && Closing(close, post)
    ensures MatchTail(p, ClassifierText(p.classifier) + ([q] + (close + post))) == Some(post)
  {
    LiteralPrefix(ClassifierText(p.classifier), [q] + (close + post));
    CloseMatches(q, close, post);
  }

  /** A fixed version: a non-empty run of `[^"'$:]`. */
  predicate PlainVersion(v: string) {
    v != [] && forall k | 0 <= k < |v| :: InVersionRun(v[k])
  }

  /** A property reference `${...}` with no closing brace inside. */
  predicate Interpolated(v: string) {
    |v| >= 3 && v[0] == '$' && v[1] == '{' && v[|v| - 1] == '}' && '}' !in v[2..|v| - 1]
  }

  /** The versions a pattern accepts whole: fixed ones, and references when braces end at the first. */
  predicate VersionFits(p: LinePattern, v: string) {
    PlainVersion(v) || (p.braces == FirstBrace && Interpolated(v))
  }

  lemma InterpolationMatches(p: LinePattern, v: string, tail: string)
    requires p.braces == FirstBrace && Interpolated(v)
    ensures MatchVersion(p, v + tail) == MatchTail(p, tail)
  {
    var body := v[2..|v| - 1];
    var t := v + tail;
    assert v == "${" + body + "}";
    assert t[0] == '$' && t[1] == '{';
    assert t[2..] == body + ("}" + tail);
    BraceRestIs(body, "}" + tail);
    ConsParts('}', tail);
  }

  /** An accepted version is consumed whole when a colon or a quote follows it. */
  lemma VersionMatches(p: LinePattern, v: string, tail: string)
    requires VersionFits(p, v) && tail != [] && (tail[0] == ':' || IsQuote(tail[0]))
    ensures MatchVersion(p, v + tail) == MatchTail(p, tail)
  {
    if PlainVersion(v) {
      assert (v + tail)[0] == v[0];
      RunRestIs(v, tail);
    } else {
      InterpolationMatches(p, v, tail);
    }
  }

  /** The version part of a declaration: `:v` when the pattern has one. */
  function VersionText(p: LinePattern, v: string): string {
    if p.versioned then ":" + v else ""
  }

  /** The quoted declaration of the pattern's coordinate, as a build script writes it. */
  function Declared(p: LinePattern, q1: char, v: string, q2: char): string {
    [q1] + (Coordinate(p) + (VersionText(p, v) + (ClassifierText(p.classifier) + [q2])))
  }

  lemma QuotedIs(p: LinePattern, q: char, after: string)
    requires IsQuote(q)
    ensures MatchQuoted(p, [q] + (Coordinate(p) + after)) == MatchAfterCoordinate(p, after)
  {
    ConsParts(q, Coordinate(p) + after);
    LiteralPrefix(Coordinate(p), after);
  }

  lemma DeclaredParts(p: LinePattern, q1: char, v: string, q2: char, rest: string)
    ensures Declared(p, q1, v, q2) + rest
         == [q1] + (Coordinate(p) + (VersionText(p, v) + (ClassifierText(p.classifier) + ([q2] + rest))))
  {
  }

  /** The pattern matches its own declaration, closing quote and parenthesis included. */
  lemma QuotedMatches(p: LinePattern, q1: char, v: string, q2: char, close: string, post: string)
    requires IsQuote(q1) && IsQuote(q2) && Closing(close, post)
    requires p.versioned ==> VersionFits(p, v)
    ensures MatchQuoted(p, Declared(p, q1, v, q2) + (close + post)) == Some(post)
  {
    var tail := ClassifierText(p.classifier) + ([q2] + (close + post));
    var after := VersionText(p, v) + tail;
    DeclaredParts(p, q1, v, q2, close + post);
    QuotedIs(p, q1, after);
    TailMatches(p, q2, close, post);
    if p.versioned {
      ConsParts(':', v + tail);
      assert after == [':'] + (v + tail);
      assert tail[0] == ':' || tail[0] == q2;
      VersionMatches(p, v, tail);
    } else {
      assert after == tail;
    }
  }

  // ------------------------------------------------------- finding the declaration

  /** `open` is what ` ?\(?` takes before the quote. */
  predicate Opening(open: string) {
    open == "" || open == " " || open == "(" || open == " ("
  }

  /** Text where no match can start: no quotes, and not ending in a space or a parenthesis that would join one. */
  predicate QuietPrefix(pre: string) {
    NoQuotes(pre) && (pre == [] || (pre[|pre| - 1] != ' ' && pre[|pre| - 1] != '('))
  }

  /** `Find`'s answer moved `k` characters to the right. */
  function Shifted(k: nat, r: Option<(nat, string)>): Option<(nat, string)> {
    match r
    case None => None
    case Some((b, rest)) => Some((b + k, rest))
  }

  lemma NoMatchInQuiet(p: LinePattern, pre: string, rest: string)
    requires pre != [] && QuietPrefix(pre)
    ensures MatchAt(p, pre + rest).None?
  {
    var t := pre + rest;
    assert t[0] == pre[0];
    if |pre| > 1 {
      assert t[1] == pre[1];
      assert t[1..][0] == pre[1];
    }
    if |pre| > 2 {
      assert t[1..][1..][0] == pre[2];
      assert t[2] == pre[2];
    }
  }

  /** Before a quiet prefix nothing is found: the search result is that of what follows, shifted. */
  lemma {:induction false} FindAfter(p: LinePattern, pre: string, rest: string)
    requires QuietPrefix(pre)
    ensures Find(p, pre + rest) == Shifted(|pre|, Find(p, rest))
    decreases |pre|
  {
    if pre == [] {
      assert pre + rest == rest;
      match Find(p, rest)
      case None =>
      case Some((b, x)) =>
    } else {
      NoMatchInQuiet(p, pre, rest);
      assert (pre + rest)[1..] == pre[1..] + rest;
      FindAfter(p, pre[1..], rest);
    }
  }

  lemma OpenThenQuote(p: LinePattern, open: string, t: string)
    requires Opening(open) && t != [] && IsQuote(t[0])
    ensures MatchAt(p, open + t) == MatchQuoted(p, t)
  {
    if open == " (" {
      ConsParts(' ', "(" + t);
      ConsParts('(', t);
      assert open + t == [' '] + ("(" + t);
    } else if open == " " || open == "(" {
      ConsParts(open[0], t);
    } else {
      assert open + t == t;
    }
  }

  lemma LineParts(pre: string, open: string, d: string, close: string, post: string)
    ensures pre + open + d + close + post == pre + (open + (d + (close + post)))
  {
  }

  /**
   * In a line whose only text before the declaration is quiet, the leftmost
   * match starts at the declaration's opening text and ends after it.
   */
  lemma FindDeclaration(p: LinePattern, pre: string, open: string, q1: char, v: string, q2: char,
                        close: string, post: string)
    requires QuietPrefix(pre) && Opening(open)
    requires IsQuote(q1) && IsQuote(q2) && Closing(close, post)
    requires p.versioned ==> VersionFits(p, v)
    ensures Find(p, pre + open + Declared(p, q1, v, q2) + close + post) == Some((|pre|, post))
  {
    var d := Declared(p, q1, v, q2);
    var rest := open + (d + (close + post));
    LineParts(pre, open, d, close, post);
    QuotedMatches(p, q1, v, q2, close, post);
    OpenThenQuote(p, open, d + (close + post));
    assert Find(p, rest) == Some((0, post));
    FindAfter(p, pre, rest);
  }

  /** `replace` on such a line: the text before it stays, the declaration gives way to the accessor. */
  lemma ReplaceDeclaration(r: BuildGradleReplacer, pre: string, open: string, q1: char, v: string,
                           q2: char, close: string, post: string)
    requires QuietPrefix(pre) && Opening(open)
    requires IsQuote(q1) && IsQuote(q2) && Closing(close, post)
    requires r.pattern.versioned ==> VersionFits(r.pattern, v)
    ensures Replace(r, pre + open + Declared(r.pattern, q1, v, q2) + close + post)
         == pre + r.replacement + post
  {
    var line := pre + open + Declared(r.pattern, q1, v, q2) + close + post;
    FindDeclaration(r.pattern, pre, open, q1, v, q2, close, post);
    LineParts(pre, open, Declared(r.pattern, q1, v, q2), close, post);
    PrefixOfAppend(pre, open + (Declared(r.pattern, q1, v, q2) + (close + post)));
  }

  // ------------------------------------------------------- lines left alone

  /** No quote of `s` opens a match. */
  predicate QuotesFail(p: LinePattern, s: string)
    decreases |s|
  {
    s == [] || ((IsQuote(s[0]) ==> MatchQuoted(p, s).None?) && QuotesFail(p, s[1..]))
  }

  lemma NoMatchAtFailing(p: LinePattern, s: string)
    requires QuotesFail(p, s)
    ensures MatchAt(p, s).None?
  {
    if |s| > 1 {
      assert QuotesFail(p, s[1..]);
      if |s| > 2 {
        assert QuotesFail(p, s[1..][1..]);
      }
    }
  }

  /** Where no quote opens a match, nothing is found. */
  lemma {:induction false} FindNone(p: LinePattern, s: string)
    requires QuotesFail(p, s)
    ensures Find(p, s).None?
    decreases |s|
  {
    NoMatchAtFailing(p, s);
    if s != [] {
      FindNone(p, s[1..]);
    }
  }

  lemma {:induction false} QuoteFreeFail(p: LinePattern, a: string, b: string)
    requires NoQuotes(a) && QuotesFail(p, b)
    ensures QuotesFail(p, a + b)
    decreases |a|
  {
    if a == [] {
      assert a + b == b;
    } else {
      assert (a + b)[0] == a[0];
      assert (a + b)[1..] == a[1..] + b;
      QuoteFreeFail(p, a[1..], b);
    }
  }

  /** A line without quotes is never changed. */
  lemma QuotelessLineUnchanged(r: BuildGradleReplacer, line: string)
    requires NoQuotes(line)
    ensures Replace(r, line) == line
  {
    QuoteFreeFail(r.pattern, line, []);
    assert line + [] == line;
    FindNone(r.pattern, line);
  }

  lemma {:induction false} ColonlessFail(p: LinePattern, s: string)
    requires ':' !in s
    ensures QuotesFail(p, s)
    decreases |s|
  {
    if s != [] {
      var coord := Coordinate(p);
      var g := |p.group|;
      assert coord[g] == ':';
      if g < |s[1..]| {
        assert s[1..][g] == s[g + 1];
      }
      LiteralMissing(s[1..], coord, g);
      ColonlessFail(p, s[1..]);
    }
  }

  /** A line without a colon is never changed: every pattern quotes `group:name`. */
  lemma ColonlessLineUnchanged(r: BuildGradleReplacer, line: string)
    requires ':' !in line
    ensures Replace(r, line) == line
  {
    ColonlessFail(r.pattern, line);
    FindNone(r.pattern, line);
  }

  lemma NoQuotesSuffix(a: string, b: string)
    requires NoQuotes(a + b)
    ensures NoQuotes(b)
  {
    forall i | 0 <= i < |b| ensures !IsQuote(b[i]) {
      assert b[i] == (a + b)[|a| + i];
    }
  }

  lemma NoQuotesDrop(t: string, k: nat)
    requires NoQuotes(t) && k <= |t|
    ensures NoQuotes(t[k..])
  {
    assert t == t[..k] + t[k..];
    NoQuotesSuffix(t[..k], t[k..]);
  }

  /** Without a closing quote there is no tail. */
  lemma TailNeedsQuote(p: LinePattern, t: string)
    requires NoQuotes(t)
    ensures MatchTail(p, t).None?
  {
    var ct := ClassifierText(p.classifier);
    match MatchText(t, ct)
    case None =>
    case Some(u) =>
      LiteralSome(t, ct);
      NoQuotesSuffix(ct, u);
  }

  lemma {:induction false} RunRestQuoteFree(t: string)
    requires NoQuotes(t)
    ensures NoQuotes(RunRest(t))
    decreases |t|
  {
    if t != [] && InVersionRun(t[0]) {
      NoQuotesDrop(t, 1);
      RunRestQuoteFree(t[1..]);
    }
  }

  lemma {:induction false} BraceRestQuoteFree(t: string)
    requires NoQuotes(t)
    ensures NoQuotes(BraceRest(t))
    decreases |t|
  {
    if t != [] && t[0] != '}' {
      NoQuotesDrop(t, 1);
      BraceRestQuoteFree(t[1..]);
    }
  }

  lemma {:induction false} GreedyNeedsQuote(p: LinePattern, t: string)
    requires NoQuotes(t)
    ensures GreedyBody(p, t).None?
    decreases |t|
  {
    if t != [] {
      NoQuotesDrop(t, 1);
      GreedyNeedsQuote(p, t[1..]);
      TailNeedsQuote(p, t[1..]);
    }
  }

  lemma VersionNeedsQuote(p: LinePattern, t: string)
    requires NoQuotes(t)
    ensures MatchVersion(p, t).None?
  {
    if t != [] && InVersionRun(t[0]) {
      RunRestQuoteFree(t);
      TailNeedsQuote(p, RunRest(t));
    } else if |t| >= 2 && t[0] == '$' && t[1] == '{' {
      NoQuotesDrop(t, 2);
      if p.braces.GreedyBraces? {
        GreedyNeedsQuote(p, t[2..]);
      } else {
        var b := BraceRest(t[2..]);
        BraceRestQuoteFree(t[2..]);
        if b != [] {
          NoQuotesDrop(b, 1);
          TailNeedsQuote(p, b[1..]);
        }
      }
    }
  }

  /** After the coordinate, nothing matches without a closing quote. */
  lemma AfterCoordinateNeedsQuote(p: LinePattern, t: string)
    requires NoQuotes(t)
    ensures MatchAfterCoordinate(p, t).None?
  {
    if !p.versioned {
      TailNeedsQuote(p, t);
    } else if t != [] && t[0] == ':' {
      NoQuotesDrop(t, 1);
      VersionNeedsQuote(p, t[1..]);
    }
  }

  /** The last quote of a line opens no match: the pattern needs a closing one. */
  lemma LastQuoteFails(p: LinePattern, q: char, rest: string)
    requires NoQuotes(rest)
    ensures MatchQuoted(p, [q] + rest).None?
  {
    ConsParts(q, rest);
    match MatchText(rest, Coordinate(p))
    case None =>
    case Some(u) =>
      LiteralSome(rest, Coordinate(p));
      NoQuotesSuffix(Coordinate(p), u);
      AfterCoordinateNeedsQuote(p, u);
  }

  // ------------------------------------------------------- other classifiers

  lemma ClassifierTextDiffers(a: Option<string>, b: Option<string>)
    requires a != b
    ensures ClassifierText(a) != ClassifierText(b)
  {
    if a.Some? && b.Some? {
      assert ClassifierText(a)[1..] == a.value && ClassifierText(b)[1..] == b.value;
    }
  }

  /** Two different texts of one length differ at some position. */
  lemma {:induction false} Difference(a: string, b: string) returns (k: nat)
    requires |a| == |b| && a != b
    ensures k < |a| && a[k] != b[k]
    decreases |a|
  {
    if a[0] != b[0] {
      k := 0;
    } else {
      assert a == [a[0]] + a[1..] && b == [b[0]] + b[1..];
      var j := Difference(a[1..], b[1..]);
      k := j + 1;
    }
  }

  /**
   * A tail written with another classifier (or none) does not match: the
   * pattern's classifier text either differs from it somewhere or meets the
   * closing quote where it needs more, or leaves classifier text where it
   * needs the quote.
   */
  lemma ClassifierMismatchFails(p: LinePattern, cd: Option<string>, q2: char, rest: string)
    requires IsQuote(q2) && cd != p.classifier
    requires NoQuotes(ClassifierText(cd)) && NoQuotes(ClassifierText(p.classifier))
    ensures MatchTail(p, ClassifierText(cd) + ([q2] + rest)).None?
  {
    var ct := ClassifierText(p.classifier);
    var dt := ClassifierText(cd);
    var t := dt + ([q2] + rest);
    if |ct| < |dt| {
      match MatchText(t, ct)
      case None =>
      case Some(u) =>
        LiteralSome(t, ct);
        assert u[0] == t[|ct|] == dt[|ct|];
    } else if |ct| == |dt| {
      ClassifierTextDiffers(p.classifier, cd);
      var k := Difference(ct, dt);
      assert t[k] == dt[k];
      LiteralMissing(t, ct, k);
    } else {
      assert t[|dt|] == q2;
      LiteralMissing(t, ct, |dt|);
    }
  }

  lemma QuotedOtherClassifierFails(p: LinePattern, q1: char, v: string, cd: Option<string>, q2: char, rest: string)
    requires IsQuote(q1) && IsQuote(q2) && cd != p.classifier
    requires NoQuotes(ClassifierText(cd)) && NoQuotes(ClassifierText(p.classifier))
    requires p.versioned ==> VersionFits(p, v)
    ensures MatchQuoted(p, Declared(p.(classifier := cd), q1, v, q2) + rest).None?
  {
    var tail := ClassifierText(cd) + ([q2] + rest);
    var after := VersionText(p, v) + tail;
    DeclaredParts(p.(classifier := cd), q1, v, q2, rest);
    QuotedIs(p, q1, after);
    ClassifierMismatchFails(p, cd, q2, rest);
    if p.versioned {
      ConsParts(':', v + tail);
      assert after == [':'] + (v + tail);
      assert tail[0] == ':' || tail[0] == q2;
      VersionMatches(p, v, tail);
    } else {
      assert after == tail;
    }
  }

  lemma NoQuotesCons(c: char, u: string)
    requires !IsQuote(c) && NoQuotes(u)
    ensures NoQuotes([c] + u)
  {
    assert forall i | 1 <= i < |u| + 1 :: ([c] + u)[i] == u[i - 1];
  }

  lemma QuoteFails(p: LinePattern, q: char, u: string)
    requires MatchQuoted(p, [q] + u).None? && QuotesFail(p, u)
    ensures QuotesFail(p, [q] + u)
  {
    ConsParts(q, u);
  }

  /**
   * The replacer for one classifier leaves alone a line that declares the
   * same coordinate with another classifier (or none): the plain and the
   * `test` variant of a library are each rewritten by their own replacer only.
   */
  lemma OtherClassifierUnchanged(r: BuildGradleReplacer, pre: string, open: string, q1: char, v: string,
                                 cd: Option<string>, q2: char, close: string, post: string)
    requires NoQuotes(pre) && Opening(open) && IsQuote(q1) && IsQuote(q2) && NoQuotes(close + post)
    requires NoQuotes(Coordinate(r.pattern)) && NoQuotes(v)
    requires r.pattern.versioned ==> VersionFits(r.pattern, v)
    requires cd != r.pattern.classifier
    requires NoQuotes(ClassifierText(cd)) && NoQuotes(ClassifierText(r.pattern.classifier))
    ensures var line := pre + open + Declared(r.pattern.(classifier := cd), q1, v, q2) + close + post;
      Replace(r, line) == line
  {
    var p := r.pattern;
    var d := Declared(p.(classifier := cd), q1, v, q2);
    var cp := close + post;
    var vt := VersionText(p, v);
    var ct := ClassifierText(cd);
    var x := Coordinate(p) + (vt + (ct + ([q2] + cp)));
    // the closing quote
    LastQuoteFails(p, q2, cp);
    QuoteFreeFail(p, cp, []);
    assert cp + [] == cp;
    QuoteFails(p, q2, cp);
    // the quote-free text inside the declaration
    QuoteFreeFail(p, ct, [q2] + cp);
    if p.versioned {
      NoQuotesCons(':', v);
    }
    QuoteFreeFail(p, vt, ct + ([q2] + cp));
    QuoteFreeFail(p, Coordinate(p), vt + (ct + ([q2] + cp)));
    // the opening quote
    DeclaredParts(p.(classifier := cd), q1, v, q2, cp);
    assert d + cp == [q1] + x;
    QuotedOtherClassifierFails(p, q1, v, cd, q2, cp);
    QuoteFails(p, q1, x);
    // the text before it
    assert NoQuotes(open);
    QuoteFreeFail(p, open, d + cp);
    QuoteFreeFail(p, pre, open + (d + cp));
    LineParts(pre, open, d, close, post);
    FindNone(p, pre + open + d + close + post);
  }

  // ------------------------------------------------------- greedy interpolations

  predicate NoTerminators(s: string) {
    forall i | 0 <= i < |s| :: !IsLineTerminator(s[i])
  }

  /** The greedy body skips any brace on the line when a later one is followed by a matching tail. */
  lemma {:induction false} GreedyPrefersLater(p: LinePattern, a: string, b: string)
    requires NoTerminators(a) && GreedyBody(p, b).Some?
    ensures GreedyBody(p, a + b) == GreedyBody(p, b)
    decreases |a|
  {
    if a == [] {
      assert a + b == b;
    } else {
      assert (a + b)[0] == a[0];
      assert (a + b)[1..] == a[1..] + b;
      GreedyPrefersLater(p, a[1..], b);
    }
  }

  lemma {:induction false} GreedyNeedsBrace(p: LinePattern, t: string)
    requires '}' !in t
    ensures GreedyBody(p, t).None?
    decreases |t|
  {
    if t != [] {
      assert t[1..] == t[1..] && forall c | c in t[1..] :: c in t;
      GreedyNeedsBrace(p, t[1..]);
    }
  }

  /** With no later brace on the line, the greedy body ends at the brace the first-brace rule takes. */
  lemma {:induction false} GreedyAtLastBrace(p: LinePattern, body: string, tail: string)
    requires '}' !in body && NoTerminators(body) && '}' !in tail
    ensures GreedyBody(p, body + ("}" + tail)) == MatchTail(p, tail)
    decreases |body|
  {
    if body == [] {
      GreedyNeedsBrace(p, tail);
      ConsParts('}', tail);
      assert body + ("}" + tail) == "}" + tail;
    } else {
      var t := body + ("}" + tail);
      assert t[0] == body[0];
      assert t[1..] == body[1..] + ("}" + tail);
      GreedyAtLastBrace(p, body[1..], tail);
    }
  }

  /** On a line with no brace after the interpolation, both rules give the same match. */
  lemma GreedyAgrees(p: LinePattern, v: string, tail: string)
    requires p.braces == GreedyBraces && Interpolated(v) && NoTerminators(v) && '}' !in tail
    ensures MatchVersion(p, v + tail) == MatchVersion(p.(braces := FirstBrace), v + tail)
  {
    var body := v[2..|v| - 1];
    var t := v + tail;
    assert v == "${" + body + "}";
    assert t[2..] == body + ("}" + tail);
    assert NoTerminators(body) by {
      forall i | 0 <= i < |body| ensures !IsLineTerminator(body[i]) {
        assert body[i] == v[i + 2];
      }
    }
    GreedyAtLastBrace(p, body, tail);
    InterpolationMatches(p.(braces := FirstBrace), v, tail);
    assert MatchTail(p, tail) == MatchTail(p.(braces := FirstBrace), tail);
  }

  lemma GreedyLineParts(pre: string, open: string, d: string, mid: string, q3: char, close: string,
                        post: string, q1: char, coord: string, x: string, q2: char)
    requires d == [q1] + (coord + (":" + ("${" + x + "}") + ("" + [q2])))
    ensures pre + open + d + mid + "}" + [q3] + close + post
         == pre + (open + ([q1] + (coord + (":" + ("${" + ((x + ("}" + ([q2] + mid))) + ("}" + ([q3] + (close + post)))))))))
  {
  }

  /**
   * `Find` is the leftmost match: it starts where a match starts and at no
   * earlier position, and it finds nothing only when no position starts one.
   */
  lemma {:induction false} FindLeftmost(p: LinePattern, s: string)
    ensures Find(p, s).Some? ==>
      var (b, rest) := Find(p, s).value;
      b <= |s| && MatchAt(p, s[b..]) == Some(rest) && forall j | 0 <= j < b :: MatchAt(p, s[j..]).None?
    ensures Find(p, s).None? ==> forall j | 0 <= j <= |s| :: MatchAt(p, s[j..]).None?
    decreases |s|
  {
    assert s[0..] == s;
    if MatchAt(p, s).None? && s != [] {
      FindLeftmost(p, s[1..]);
      forall j | 1 <= j <= |s| ensures s[j..] == s[1..][j - 1..] {
      }
    }
  }

  /** A match that opens at a quote after quiet text is what `replace` rewrites. */
  lemma ReplaceAtQuote(r: BuildGradleReplacer, pre: string, open: string, t: string, post: string)
    requires QuietPrefix(pre) && Opening(open) && t != [] && IsQuote(t[0])
    requires MatchQuoted(r.pattern, t) == Some(post)
    ensures Replace(r, pre + (open + t)) == pre + r.replacement + post
  {
    OpenThenQuote(r.pattern, open, t);
    assert Find(r.pattern, open + t) == Some((0, post));
    FindAfter(r.pattern, pre, open + t);
    PrefixOfAppend(pre, open + t);
  }

  lemma GreedyToLastBrace(p: LinePattern, a: string, q3: char, close: string, post: string)
    requires p.classifier.None? && NoTerminators(a) && IsQuote(q3)
    requires Closing(close, post) && '}' !in close + post
    ensures GreedyBody(p, a + ("}" + ([q3] + (close + post)))) == Some(post)
  {
    var cp := close + post;
    var b := "}" + ([q3] + cp);
    assert '}' !in [q3] + cp;
    GreedyNeedsBrace(p, [q3] + cp);
    TailMatches(p, q3, close, post);
    assert ClassifierText(p.classifier) + ([q3] + cp) == [q3] + cp;
    ConsParts('}', [q3] + cp);
    assert GreedyBody(p, b) == Some(post);
    GreedyPrefersLater(p, a, b);
  }

  lemma NoTerminatorsBetween(x: string, q2: char, mid: string)
    requires NoTerminators(x) && NoTerminators(mid) && IsQuote(q2)
    ensures NoTerminators(x + ("}" + ([q2] + mid)))
  {
    var a := x + ("}" + ([q2] + mid));
    forall i | 0 <= i < |a| ensures !IsLineTerminator(a[i]) {
      if i < |x| {
        assert a[i] == x[i];
      } else if i == |x| {
        assert a[i] == '}';
      } else if i == |x| + 1 {
        assert a[i] == q2;
      } else {
        assert a[i] == mid[i - |x| - 2];
      }
    }
  }

  /**
   * As written, `\$\{.*\}` runs to the last brace on the line that a quote
   * follows: a second interpolated declaration after the first one is
   * swallowed into the match and disappears with it.
   */
  lemma GreedySwallows(r: BuildGradleReplacer, pre: string, open: string, q1: char, x: string, q2: char,
                       mid: string, q3: char, close: string, post: string)
    requires r.pattern.braces == GreedyBraces && r.pattern.versioned && r.pattern.classifier.None?
    requires QuietPrefix(pre) && Opening(open) && IsQuote(q1) && IsQuote(q2) && IsQuote(q3)
    requires Closing(close, post) && '}' !in close + post
    requires NoTerminators(x) && NoTerminators(mid)
    ensures Replace(r, pre + open + Declared(r.pattern, q1, "${" + x + "}", q2) + mid + "}" + [q3] + close + post)
         == pre + r.replacement + post
  {
    var p := r.pattern;
    var cp := close + post;
    var a := x + ("}" + ([q2] + mid));
    var b := "}" + ([q3] + cp);
    var u := "${" + (a + b);
    GreedyLineParts(pre, open, Declared(p, q1, "${" + x + "}", q2), mid, q3, close, post, q1, Coordinate(p), x, q2);
    NoTerminatorsBetween(x, q2, mid);
    GreedyToLastBrace(p, a, q3, close, post);
    QuotedIs(p, q1, ":" + u);
    ConsParts(':', u);
    assert u[0] == '$' && u[1] == '{' && u[2..] == a + b;
    assert MatchVersion(p, u) == Some(post);
    assert MatchAfterCoordinate(p, ":" + u) == Some(post);
    ReplaceAtQuote(r, pre, open, [q1] + (Coordinate(p) + (":" + u)), post);
  }

  /** A library `g:a` whose version is the catalog entry `v`, as the examples below declare it. */
  const ExampleEntry := LibraryEntry("g", "a", Ref("v"), {})

  /** Two interpolated declarations on one line. */
  const TwoDeclarations := "f('g:a:${v}');f('g:b:${w}')"

  lemma ExampleReplacer(braces: BraceRule)
    ensures Declared(NewReplacerWith(braces, "a", ExampleEntry, None).pattern, '\'', "${v}", '\'') == "'g:a:${v}'"
    ensures NewReplacerWith(braces, "a", ExampleEntry, None).replacement == "(libs.a)"
  {
  }

  lemma GreedyExampleLine()
    ensures TwoDeclarations == "f" + "(" + "'g:a:${v}'" + ");f('g:b:${w" + "}" + ['\''] + ")" + ""
  {
  }

  lemma FirstBraceExampleLine()
    ensures TwoDeclarations == "f" + "(" + "'g:a:${v}'" + ")" + ";f('g:b:${w}')"
  {
  }

  lemma ExampleParts()
    ensures "${" + "v" + "}" == "${v}" && Interpolated("${v}")
    ensures NoTerminators(");f('g:b:${w")
    ensures "f" + "(libs.a)" + "" == "f(libs.a)"
  {
  }

  lemma FirstBraceExampleResult()
    ensures "f" + "(libs.a)" + ";f('g:b:${w}')" == "f(libs.a);f('g:b:${w}')"
  {
  }

  /** As written: the replacer for `g:a` removes the declaration of `g:b` too. */
  lemma GreedySwallowsExample()
    ensures Replace(NewReplacerWith(GreedyBraces, "a", ExampleEntry, None), TwoDeclarations) == "f(libs.a)"
  {
    var r := NewReplacerWith(GreedyBraces, "a", ExampleEntry, None);
    ExampleReplacer(GreedyBraces);
    GreedyExampleLine();
    ExampleParts();
    GreedySwallows(r, "f", "(", '\'', "v", '\'', ");f('g:b:${w", '\'', ")", "");
  }

  /** With braces ending at the first one, only the declaration of `g:a` is replaced. */
  lemma FirstBraceExample()
    ensures Replace(NewReplacer("a", ExampleEntry, None), TwoDeclarations) == "f(libs.a);f('g:b:${w}')"
  {
    var r := NewReplacer("a", ExampleEntry, None);
    ExampleReplacer(FirstBrace);
    FirstBraceExampleLine();
    FirstBraceExampleResult();
    ExampleParts();
    ReplaceDeclaration(r, "f", "(", '\'', "${v}", '\'', ")", ";f('g:b:${w}')");
  }
}

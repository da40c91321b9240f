/**
 * Key assignment for a catalog table: the sanitising chain that turns a
 * preferred id into a candidate key, the collision test, and the four-digit
 * hexadecimal suffix used when the candidate collides.
 */
module Identifiers {
  import opened Text

  // ---------------------------------------------------------------- sanitising

  /** Only letters, digits and spaces. */
  predicate WordChars(s: string) {
    forall i | 0 <= i < |s| :: IsAlnum(s[i]) || s[i] == ' '
  }

  predicate NoDoubleSpace(s: string) {
    forall i, j | 0 <= i && j == i + 1 < |s| :: s[i] == ' ' ==> s[j] != ' '
  }

  predicate NoSpaceBeforeDigit(s: string) {
    forall i, j | 0 <= i && j == i + 1 < |s| :: s[i] == ' ' ==> !IsDigit(s[j])
  }

  predicate IsKeyChar(c: char) {
    IsAlnum(c) || c == '-'
  }

  /**
   * What the sanitiser guarantees of a key: letters, digits and dashes only,
   * no dash at either end, no two dashes in a row and no dash before a digit.
   */
  predicate WellFormedId(k: string) {
    && (forall i | 0 <= i < |k| :: IsKeyChar(k[i]))
    && (k != [] ==> k[0] != '-' && k[|k| - 1] != '-')
    && (forall i, j | 0 <= i && j == i + 1 < |k| :: k[i] == '-' ==> k[j] != '-' && !IsDigit(k[j]))
  }

  /** The letters and digits of a text, in order. */
  function Alnums(s: string): string
    decreases |s|
  {
    if s == [] then [] else (if IsAlnum(s[0]) then [s[0]] else []) + Alnums(s[1..])
  }

  /** Every character of a text but the spaces, in order. */
  function NonSpaces(s: string): string
    decreases |s|
  {
    if s == [] then [] else (if s[0] == ' ' then [] else [s[0]]) + NonSpaces(s[1..])
  }

  /** How many spaces of a text stand directly before a digit. */
  function SpacesBeforeDigits(s: string): nat
    decreases |s|
  {
    if |s| < 2 then 0 else (if s[0] == ' ' && IsDigit(s[1]) then 1 else 0) + SpacesBeforeDigits(s[1..])
  }

  /** Every character outside `[a-zA-Z0-9]` turned into a space. */
  function Blank(s: string): (r: string)
    ensures |r| == |s|
    ensures forall i | 0 <= i < |s| :: r[i] == (if IsAlnum(s[i]) then s[i] else ' ')
  {
    seq(|s|, i requires 0 <= i < |s| => if IsAlnum(s[i]) then s[i] else ' ')
  }

  /** Every space that directly follows another space removed. */
  function Squeeze(s: string): string
    decreases |s|
  {
    if |s| < 2 then s
    else if s[0] == ' ' && s[1] == ' ' then Squeeze(s[1..])
    else [s[0]] + Squeeze(s[1..])
  }

  /** Drops the leading characters outside `[a-zA-Z0-9]`. */
  function SkipInvalid(s: string): (r: string)
    ensures |r| <= |s|
    ensures r == [] || IsAlnum(r[0])
  {
    if s == [] || IsAlnum(s[0]) then s else SkipInvalid(s[1..])
  }

  /** `replaceAll("[^a-zA-Z0-9]+", " ")`: each maximal run of other characters becomes one space. */
  function CollapseInvalid(s: string): (r: string)
    ensures WordChars(r) && NoDoubleSpace(r)
    ensures r == [] <==> s == []
    ensures s != [] && IsAlnum(s[0]) ==> r[0] == s[0]
    decreases |s|
  {
    if s == [] then []
    else if IsAlnum(s[0]) then [s[0]] + CollapseInvalid(s[1..])
    else [' '] + CollapseInvalid(SkipInvalid(s[1..]))
  }

  lemma {:induction false} SkipKeepsAlnums(s: string)
    ensures Alnums(SkipInvalid(s)) == Alnums(s)
    decreases |s|
  {
    if s != [] && !IsAlnum(s[0]) {
      SkipKeepsAlnums(s[1..]);
    }
  }

  /** Collapsing keeps every letter and digit, in order. */
  lemma {:induction false} CollapseKeepsAlnums(s: string)
    ensures Alnums(CollapseInvalid(s)) == Alnums(s)
    decreases |s|
  {
    if s != [] {
      if IsAlnum(s[0]) {
        var rest := CollapseInvalid(s[1..]);
        CollapseKeepsAlnums(s[1..]);
        assert ([s[0]] + rest)[1..] == rest;
      } else {
        var rest := CollapseInvalid(SkipInvalid(s[1..]));
        CollapseKeepsAlnums(SkipInvalid(s[1..]));
        SkipKeepsAlnums(s[1..]);
        assert ([' '] + rest)[1..] == rest;
      }
    }
  }

  /**
   * The collapse is the regular expression's meaning: blank every character
   * outside the class, then keep only the first space of each run of spaces.
   */
  lemma {:induction false} CollapseIsSqueezedBlanks(s: string)
    ensures CollapseInvalid(s) == Squeeze(Blank(s))
    decreases |s|
  {
    if s != [] {
      BlankCons(s);
      if IsAlnum(s[0]) {
        CollapseIsSqueezedBlanks(s[1..]);
        SqueezeCons(s[0], Blank(s[1..]));
      } else {
        CollapseIsSqueezedBlanks(SkipInvalid(s[1..]));
        SqueezeSpaceBlank(s[1..]);
      }
    }
  }

  lemma BlankCons(s: string)
    requires s != []
    ensures Blank(s) == [if IsAlnum(s[0]) then s[0] else ' '] + Blank(s[1..])
  {
  }

  lemma SqueezeCons(c: char, x: string)
    requires c != ' '
    ensures Squeeze([c] + x) == [c] + Squeeze(x)
  {
    if x != [] {
      assert ([c] + x)[1..] == x;
    }
  }

  /** A space followed by blanked text squeezes like the space followed by the text after its run. */
  lemma {:induction false} SqueezeSpaceBlank(t: string)
    ensures Squeeze([' '] + Blank(t)) == [' '] + Squeeze(Blank(SkipInvalid(t)))
    decreases |t|
  {
    if t != [] {
      BlankCons(t);
      assert ([' '] + Blank(t))[1..] == Blank(t);
      if IsAlnum(t[0]) {
        assert SkipInvalid(t) == t;
      } else {
        SqueezeSpaceBlank(t[1..]);
      }
    }
  }

  function TrimStart(s: string): (r: string)
    ensures |r| <= |s| && r == s[|s| - |r|..]
    ensures r == [] || r[0] != ' '
  {
    if s != [] && s[0] == ' ' then TrimStart(s[1..]) else s
  }

  function TrimEnd(s: string): (r: string)
    ensures |r| <= |s| && r == s[..|r|]
    ensures r == [] || r[|r| - 1] != ' '
  {
    if s != [] && s[|s| - 1] == ' ' then TrimEnd(s[..|s| - 1]) else s
  }

  lemma {:induction false} TrimStartKeepsAlnums(s: string)
    ensures Alnums(TrimStart(s)) == Alnums(s)
    decreases |s|
  {
    if s != [] && s[0] == ' ' {
      TrimStartKeepsAlnums(s[1..]);
    }
  }

  lemma {:induction false} TrimEndKeepsAlnums(s: string)
    ensures Alnums(TrimEnd(s)) == Alnums(s)
    decreases |s|
  {
    if s != [] && s[|s| - 1] == ' ' {
      AlnumsDropSpace(s);
      TrimEndKeepsAlnums(s[..|s| - 1]);
    }
  }

  /** A trailing space adds no letter or digit. */
  lemma {:induction false} AlnumsDropSpace(s: string)
    requires s != [] && s[|s| - 1] == ' '
    ensures Alnums(s[..|s| - 1]) == Alnums(s)
    decreases |s|
  {
    if |s| > 1 {
      AlnumsDropSpace(s[1..]);
      assert s[1..][..|s| - 2] == s[..|s| - 1][1..];
    }
  }

  /** Mapping one character outside the class to another changes no letter or digit. */
  lemma {:induction false} AlnumsMapChar(s: string, from: char, to: char)
    requires !IsAlnum(from) && !IsAlnum(to)
    ensures Alnums(MapChar(s, from, to)) == Alnums(s)
    decreases |s|
  {
    if s != [] {
      AlnumsMapChar(s[1..], from, to);
      assert MapChar(s, from, to)[1..] == MapChar(s[1..], from, to);
    }
  }

  /**
   * `strip()`. Java strips every whitespace character; after the first step
   * the only one left is the space, so trimming spaces is the same thing.
   */
  function Strip(s: string): (r: string)
    ensures r == [] || (r[0] != ' ' && r[|r| - 1] != ' ')
  {
    TrimEnd(TrimStart(s))
  }

  /** `replaceAll(" ([0-9])", "$1")`: a space directly before a digit is removed. */
  function JoinDigits(s: string): (r: string)
    ensures |s| > 0 ==> |r| > 0 && r[|r| - 1] == s[|s| - 1]
    ensures |s| > 0 ==> r[0] == s[0] || (|s| > 1 && s[0] == ' ' && r[0] == s[1])
    ensures WordChars(s) ==> WordChars(r)
    ensures NoDoubleSpace(s) ==> NoDoubleSpace(r) && NoSpaceBeforeDigit(r)
  {
    if |s| < 2 then s
    else if s[0] == ' ' && IsDigit(s[1]) then [s[1]] + JoinDigits(s[2..])
    else [s[0]] + JoinDigits(s[1..])
  }

  /**
   * Joining removes spaces and nothing else, exactly as many as stand
   * directly before a digit; the letters and digits stay in order.
   */
  lemma {:induction false} JoinDigitsRemovesSpacesBeforeDigits(s: string)
    ensures NonSpaces(JoinDigits(s)) == NonSpaces(s) && Alnums(JoinDigits(s)) == Alnums(s)
    ensures |JoinDigits(s)| == |s| - SpacesBeforeDigits(s)
    decreases |s|
  {
    if |s| >= 2 {
      if s[0] == ' ' && IsDigit(s[1]) {
        var rest := JoinDigits(s[2..]);
        JoinDigitsRemovesSpacesBeforeDigits(s[2..]);
        assert s[1..][1..] == s[2..] && ([s[1]] + rest)[1..] == rest;
      } else {
        var rest := JoinDigits(s[1..]);
        JoinDigitsRemovesSpacesBeforeDigits(s[1..]);
        assert ([s[0]] + rest)[1..] == rest;
      }
    }
  }

  /** `replaceAll(" ", "-")` */
  function SpacesToDashes(s: string): (r: string)
    ensures |r| == |s|
    ensures forall i | 0 <= i < |s| :: r[i] == (if s[i] == ' ' then '-' else s[i])
  {
    MapChar(s, ' ', '-')
  }

  /** The candidate key for a preferred id: the four-step chain of `TomlTable.add`. */
  function Sanitize(baseId: string): (k: string)
    ensures WellFormedId(k)
  {
    var stripped := Strip(CollapseInvalid(baseId));
    StripKeepsWords(CollapseInvalid(baseId));
    var joined := JoinDigits(stripped);
    DashesWellFormed(joined);
    SpacesToDashes(joined)
  }

  /** The key has exactly the letters and digits of the preferred id, in order. */
  lemma SanitizeKeepsAlnums(baseId: string)
    ensures Alnums(Sanitize(baseId)) == Alnums(baseId)
  {
    var collapsed := CollapseInvalid(baseId);
    CollapseKeepsAlnums(baseId);
    TrimStartKeepsAlnums(collapsed);
    TrimEndKeepsAlnums(TrimStart(collapsed));
    var stripped := Strip(collapsed);
    JoinDigitsRemovesSpacesBeforeDigits(stripped);
    AlnumsMapChar(JoinDigits(stripped), ' ', '-');
  }

  lemma StripKeepsWords(s: string)
    requires WordChars(s) && NoDoubleSpace(s)
    ensures WordChars(Strip(s)) && NoDoubleSpace(Strip(s))
  {
    var t := TrimStart(s);
    assert WordChars(t) && NoDoubleSpace(t) by {
      assert t == s[|s| - |t|..];
    }
    var u := TrimEnd(t);
    assert u == t[..|u|];
  }

  /** Turning the spaces of a joined text back into dashes gives a well-formed key. */
  lemma DashesWellFormed(j: string)
    requires WordChars(j) && NoDoubleSpace(j) && NoSpaceBeforeDigit(j)
    requires j == [] || (j[0] != ' ' && j[|j| - 1] != ' ')
    ensures WellFormedId(SpacesToDashes(j))
  {
    var k := SpacesToDashes(j);
    forall i | 0 <= i < |k| - 1 && k[i] == '-'
      ensures k[i + 1] != '-' && !IsDigit(k[i + 1])
    {
      assert j[i] == ' ';
    }
  }

  function DashesToSpaces(k: string): (s: string)
    ensures |s| == |k|
    ensures forall i | 0 <= i < |k| :: s[i] == (if k[i] == '-' then ' ' else k[i])
  {
    MapChar(k, '-', ' ')
  }

  lemma {:induction false} CollapseOfDashed(k: string)
    requires forall i | 0 <= i < |k| :: IsKeyChar(k[i])
    requires forall i, j | 0 <= i && j == i + 1 < |k| :: k[i] == '-' ==> k[j] != '-'
    ensures CollapseInvalid(k) == DashesToSpaces(k)
    decreases |k|
  {
    if k != [] {
      var rest := k[1..];
      CollapseOfDashed(rest);
      if k[0] == '-' {
        assert SkipInvalid(rest) == rest by {
          if rest != [] {
            assert k[1] != '-';
          }
        }
      }
      assert DashesToSpaces(k) == [DashesToSpaces(k)[0]] + DashesToSpaces(rest);
    }
  }

  lemma {:induction false} JoinDigitsIdentity(s: string)
    requires NoSpaceBeforeDigit(s)
    ensures JoinDigits(s) == s
    decreases |s|
  {
    if |s| >= 2 {
      assert !(s[0] == ' ' && IsDigit(s[1]));
      var rest := s[1..];
      JoinDigitsIdentity(rest);
      assert s == [s[0]] + rest;
    }
  }

  lemma DashesSpacesInverse(k: string)
    requires forall i | 0 <= i < |k| :: IsKeyChar(k[i])
    ensures SpacesToDashes(DashesToSpaces(k)) == k
  {
    var r := SpacesToDashes(DashesToSpaces(k));
    forall i | 0 <= i < |k|
      ensures r[i] == k[i]
    {
      assert IsKeyChar(k[i]);
    }
  }

  lemma StripIdentity(s: string)
    requires s == [] || (s[0] != ' ' && s[|s| - 1] != ' ')
    ensures Strip(s) == s
  {
    assert TrimStart(s) == s;
  }

  /** A well-formed key is its own candidate: sanitising changes nothing. */
  lemma SanitizeKeepsWellFormed(k: string)
    requires WellFormedId(k)
    ensures Sanitize(k) == k
  {
    var spaced := DashesToSpaces(k);
    CollapseOfDashed(k);
    assert spaced == [] || (spaced[0] != ' ' && spaced[|spaced| - 1] != ' ');
    StripIdentity(spaced);
    assert NoSpaceBeforeDigit(spaced) by {
      forall i | 0 <= i < |spaced| - 1 && spaced[i] == ' '
        ensures !IsDigit(spaced[i + 1])
      {
        assert k[i] == '-';
      }
    }
    JoinDigitsIdentity(spaced);
    assert CollapseInvalid(k) == spaced;
    assert Strip(CollapseInvalid(k)) == spaced;
    assert JoinDigits(Strip(CollapseInvalid(k))) == spaced;
    assert Sanitize(k) == SpacesToDashes(spaced);
    DashesSpacesInverse(k);
  }

  /** Sanitising is idempotent. */
  lemma SanitizeIdempotent(s: string)
    ensures Sanitize(Sanitize(s)) == Sanitize(s)
  {
    SanitizeKeepsWellFormed(Sanitize(s));
  }

  /** A dot becomes a dash: `a.b` sanitises to `a-b`. */
  lemma SanitizeDotted(s: string)
    requires s == "a.b"
    ensures Sanitize(s) == "a-b"
  {
    assert SkipInvalid("b") == "b";
    assert CollapseInvalid("b") == "b";
    assert CollapseInvalid("a.b") == "a b";
    assert TrimStart("a b") == "a b";
    assert TrimEnd("a b") == "a b";
    assert Strip("a b") == "a b";
    assert JoinDigits("a b") == "a b";
    assert SpacesToDashes("a b") == "a-b";
  }

  // ------------------------------------------------------------ the suffix

  /** A value of `nextInt(1 << 16)`. */
  type Suffix = n: nat | n < 0x10000

  predicate IsLowerHex(c: char) {
    '0' <= c <= '9' || 'a' <= c <= 'f'
  }

  /** The lower-case hexadecimal digit for a value below 16. */
  function HexDigit(d: nat): (c: char)
    requires d < 16
    ensures IsLowerHex(c)
  {
    if d < 10 then ('0' as int + d) as char else ('a' as int + d - 10) as char
  }

  function HexValue(c: char): (d: nat)
    requires IsLowerHex(c)
    ensures d < 16
  {
    if c <= '9' then c as nat - '0' as nat else c as nat - 'a' as nat + 10
  }

  /** `String.format("%04x", n)`: four lower-case hexadecimal digits, zero-padded. */
  function Hex4(n: Suffix): (h: string)
    ensures |h| == 4 && forall i | 0 <= i < 4 :: IsLowerHex(h[i])
  {
    var r1 := n / 16;
    var r2 := r1 / 16;
    [HexDigit(r2 / 16), HexDigit(r2 % 16), HexDigit(r1 % 16), HexDigit(n % 16)]
  }

  /** Reads four hexadecimal digits back into a number. */
  function ParseHex4(h: string): nat
    requires |h| == 4 && forall i | 0 <= i < 4 :: IsLowerHex(h[i])
  {
    ((HexValue(h[0]) * 16 + HexValue(h[1])) * 16 + HexValue(h[2])) * 16 + HexValue(h[3])
  }

  lemma HexDigitRoundTrip(d: nat)
    requires d < 16
    ensures HexValue(HexDigit(d)) == d
  {
  }

  /** The suffix text encodes the drawn value exactly. */
  lemma Hex4RoundTrip(n: Suffix)
    ensures ParseHex4(Hex4(n)) == n
  {
    var r1 := n / 16;
    var r2 := r1 / 16;
    HexDigitRoundTrip(r2 / 16);
    HexDigitRoundTrip(r2 % 16);
    HexDigitRoundTrip(r1 % 16);
    HexDigitRoundTrip(n % 16);
    assert n == r1 * 16 + n % 16;
    assert r1 == r2 * 16 + r1 % 16;
    assert r2 == (r2 / 16) * 16 + r2 % 16;
  }

  // ------------------------------------------------------------ collisions

  /**
   * The candidate is taken when it is already a key, or when some key
   * extends it by a dash (Gradle's generated accessors cannot tell
   * `libs.junit` the library from `libs.junit` the group of `junit-bom`).
   */
  predicate Collides(keys: set<string>, candidate: string) {
    candidate in keys || exists k | k in keys :: StartsWith(k, candidate + "-")
  }

  /**
   * The key under which `TomlTable.add` stores a row whose candidate key is
   * `c`: the candidate itself when it does not collide, otherwise the
   * candidate followed by the suffix in hexadecimal. The suffixed key is not
   * checked again.
   */
  function AssignedKey(keys: set<string>, c: string, suffix: Suffix): (k: string)
    ensures StartsWith(k, c)
    ensures !Collides(keys, c) ==> k == c && k !in keys
    ensures Collides(keys, c) ==>
      |k| == |c| + 4 && (forall i | |c| <= i < |k| :: IsLowerHex(k[i])) && ParseHex4(k[|c|..]) == suffix
    ensures WellFormedId(c) ==> WellFormedId(k)
  {
    if Collides(keys, c) then
      Hex4RoundTrip(suffix);
      SuffixedWellFormed(c, Hex4(suffix));
      assert (c + Hex4(suffix))[|c|..] == Hex4(suffix);
      c + Hex4(suffix)
    else c
  }

  /**
   * The suffixed key is not checked again: when the table already holds the
   * candidate and the candidate with this very suffix, the row is assigned
   * a key that is already taken, and its row is overwritten.
   */
  lemma SuffixNotRechecked(c: string, suffix: Suffix)
    ensures AssignedKey({c, c + Hex4(suffix)}, c, suffix) == c + Hex4(suffix)
    ensures AssignedKey({c, c + Hex4(suffix)}, c, suffix) in {c, c + Hex4(suffix)}
  {
    assert Collides({c, c + Hex4(suffix)}, c);
  }

  /** Four hexadecimal digits appended to a well-formed key keep it well formed. */
  lemma SuffixedWellFormed(c: string, h: string)
    requires |h| == 4 && forall i | 0 <= i < 4 :: IsLowerHex(h[i])
    ensures WellFormedId(c) ==> WellFormedId(c + h)
  {
    if WellFormedId(c) {
      var k := c + h;
      forall i | 0 <= i < |k| - 1 && k[i] == '-'
        ensures k[i + 1] != '-' && !IsDigit(k[i + 1])
      {
        assert i < |c| - 1;
      }
    }
  }
}

/** The release version grammar (script/release-version.ts:1-23) and the precedence of Semantic Versioning
    2.0.0, section 11, on it. */
module ReleaseVersion {
  import opened Bytes

  type Text = seq<Byte>

  const DOT: Byte := 46
  const DASH: Byte := 45
  const LOWER_V: Byte := 118
  const BETA: Text := [98, 101, 116, 97]
  const DASH_BETA: Text := [DASH] + BETA

  datatype Version = Version(major: nat, minor: nat, patch: nat, beta: bool)

  // ----- numerals -----

  predicate Digit(b: Byte) {
    ZERO <= b <= ZERO + 9
  }

  /** 0, or digits that do not start with 0. */
  predicate IsNumeral(s: Text) {
    s != [] && (forall b :: b in s ==> Digit(b)) && (|s| == 1 || s[0] != ZERO)
  }

  lemma {:induction false} DecimalIsNumeral(n: nat)
    ensures IsNumeral(Decimal(n)) && (n > 0 ==> Decimal(n)[0] != ZERO)
  {
    if n >= 10 {
      DecimalIsNumeral(n / 10);
      assert Decimal(n)[0] == Decimal(n / 10)[0];
    }
  }

  lemma NumeralPlus(init: Text, last: Byte)
    ensures Numeral(init + [last]) == Numeral(init) * 10 + (last as int - ZERO as int)
  {
    assert (init + [last])[..|init|] == init;
  }

  lemma DecimalPlus(n: nat, d: nat)
    requires n > 0 && d < 10
    ensures Decimal(n * 10 + d) == Decimal(n) + [ZERO + d]
  {
    assert (n * 10 + d) / 10 == n && (n * 10 + d) % 10 == d;
  }

  lemma {:induction false} NumeralIsDecimal(s: Text)
    requires IsNumeral(s)
    ensures Numeral(s) >= 0 && Decimal(Numeral(s)) == s && (s[0] != ZERO ==> Numeral(s) > 0)
  {
    var init, last := s[..|s| - 1], s[|s| - 1];
    assert last in s && s == init + [last];
    NumeralPlus(init, last);
    if |s| == 1 {
      assert Numeral(init) == 0;
    } else {
      assert init[0] == s[0];
      assert forall b :: b in init ==> b in s;
      NumeralIsDecimal(init);
      DecimalPlus(Numeral(init), last as int - ZERO as int);
    }
  }

  // ----- the patterns -----

  /** Three numerals with dots between them. */
  predicate NumericVersion(s: Text) {
    var i := IndexOf(s, DOT, 0);
    var j := IndexOf(s, DOT, if i >= 0 then i + 1 else 0);
    i >= 0 && j > i && IsNumeral(s[..i]) && IsNumeral(s[i + 1..j]) && IsNumeral(s[j + 1..])
  }

  predicate EndsWith(s: Text, suffix: Text): (r: bool)
    ensures r ==> |suffix| <= |s|
  {
    |suffix| <= |s| && s[|s| - |suffix|..] == suffix
  }

  predicate ProductVersion(s: Text) {
    NumericVersion(s) || (EndsWith(s, DASH_BETA) && NumericVersion(s[..|s| - |DASH_BETA|]))
  }

  function Dotted(x: Text, y: Text, z: Text): Text {
    x + [DOT] + y + [DOT] + z
  }

  function RenderNumeric(major: nat, minor: nat, patch: nat): Text {
    Dotted(Decimal(major), Decimal(minor), Decimal(patch))
  }

  /** The canonical text of a version. */
  function Render(v: Version): Text {
    RenderNumeric(v.major, v.minor, v.patch) + if v.beta then DASH_BETA else []
  }

  // ----- normalization -----

  datatype Normalized = Nothing | Invalid | Canonical(text: Text)

  /** The input, trimmed of white space. */
  function Normalize(value: Text): Normalized {
    if value == [] then Nothing
    else
      var unprefixed := if |value| >= 2 && value[0] == LOWER_V && Digit(value[1]) then value[1..] else value;
      var compact := EndsWith(unprefixed, BETA) && NumericVersion(unprefixed[..|unprefixed| - |BETA|]);
      var version := if compact then unprefixed[..|unprefixed| - |BETA|] + DASH_BETA else unprefixed;
      if ProductVersion(version) then Canonical(version) else Invalid
  }

  // ----- the patterns match exactly the rendered versions -----

  lemma NumeralHas(s: Text, b: Byte)
    requires IsNumeral(s) && !Digit(b)
    ensures b !in s
  {
  }

  lemma DottedSlices(x: Text, y: Text, z: Text)
    ensures var s := Dotted(x, y, z);
      |s| == |x| + |y| + |z| + 2 && s[0..|x|] == x && s[|x|] == DOT && s[|x| + 1 + |y|] == DOT
    ensures Dotted(x, y, z)[|x| + 1..|x| + 1 + |y|] == y
    ensures Dotted(x, y, z)[|x| + |y| + 2..] == z
  {
  }

  /** The dots of a dotted text are found where they were put. */
  lemma DottedDots(x: Text, y: Text, z: Text)
    requires DOT !in x && DOT !in y
    ensures IndexOf(Dotted(x, y, z), DOT, 0) == |x|
    ensures IndexOf(Dotted(x, y, z), DOT, |x| + 1) == |x| + 1 + |y|
  {
    hide Dotted, IndexOf;
    DottedSlices(x, y, z);
    FirstOccurrence(Dotted(x, y, z), 0, x, DOT);
    FirstOccurrence(Dotted(x, y, z), |x| + 1, y, DOT);
  }

  lemma RenderNumericIs(major: nat, minor: nat, patch: nat)
    ensures NumericVersion(RenderNumeric(major, minor, patch))
    ensures RenderNumeric(major, minor, patch) != [] && Digit(RenderNumeric(major, minor, patch)[0])
  {
    var a, b, c := Decimal(major), Decimal(minor), Decimal(patch);
    DecimalIsNumeral(major);
    DecimalIsNumeral(minor);
    DecimalIsNumeral(patch);
    hide Decimal, IndexOf;
    NumeralHas(a, DOT);
    NumeralHas(b, DOT);
    DottedDots(a, b, c);
    DottedSlices(a, b, c);
    hide Dotted;
    assert a[0] in a && a[0] == Dotted(a, b, c)[0..|a|][0];
    assert Dotted(a, b, c)[0..|a|] == Dotted(a, b, c)[..|a|];
  }

  lemma SplitIsDotted(s: Text, i: nat, j: nat)
    requires i < j < |s| && s[i] == DOT && s[j] == DOT
    ensures s == Dotted(s[..i], s[i + 1..j], s[j + 1..])
  {
    DottedSlices(s[..i], s[i + 1..j], s[j + 1..]);
  }

  lemma NumericIsRendered(s: Text) returns (major: nat, minor: nat, patch: nat)
    requires NumericVersion(s)
    ensures s == RenderNumeric(major, minor, patch)
  {
    hide Dotted, IndexOf;
    var i := IndexOf(s, DOT, 0);
    var j := IndexOf(s, DOT, i + 1);
    NumeralIsDecimal(s[..i]);
    NumeralIsDecimal(s[i + 1..j]);
    NumeralIsDecimal(s[j + 1..]);
    hide Decimal, Numeral, IsNumeral;
    major, minor, patch := Numeral(s[..i]), Numeral(s[i + 1..j]), Numeral(s[j + 1..]);
    SplitIsDotted(s, i, j);
  }

  lemma DecimalHasNoDot(n: nat)
    ensures DOT !in Decimal(n)
  {
    DecimalIsNumeral(n);
    hide Decimal;
    NumeralHas(Decimal(n), DOT);
  }

  /** Where the dots are says which parts a dotted text has. */
  lemma DottedIsUnique(x: Text, y: Text, z: Text, x2: Text, y2: Text, z2: Text)
    requires DOT !in x && DOT !in y && DOT !in x2 && DOT !in y2 && Dotted(x, y, z) == Dotted(x2, y2, z2)
    ensures x == x2 && y == y2 && z == z2
  {
    hide Dotted, IndexOf;
    DottedDots(x, y, z);
    DottedDots(x2, y2, z2);
    DottedSlices(x, y, z);
    DottedSlices(x2, y2, z2);
  }

  lemma NumericIsUnique(a: nat, b: nat, c: nat, a2: nat, b2: nat, c2: nat)
    requires RenderNumeric(a, b, c) == RenderNumeric(a2, b2, c2)
    ensures a == a2 && b == b2 && c == c2
  {
    hide Decimal, Numeral, Dotted;
    DecimalHasNoDot(a);
    DecimalHasNoDot(a2);
    DecimalHasNoDot(b);
    DecimalHasNoDot(b2);
    DottedIsUnique(Decimal(a), Decimal(b), Decimal(c), Decimal(a2), Decimal(b2), Decimal(c2));
    DecimalRoundTrip(a);
    DecimalRoundTrip(a2);
    DecimalRoundTrip(b);
    DecimalRoundTrip(b2);
    DecimalRoundTrip(c);
    DecimalRoundTrip(c2);
  }

  /** A numeric version ends in a digit, so in neither suffix. */
  lemma NumericEnds(s: Text)
    requires NumericVersion(s)
    ensures Digit(s[0]) && Digit(s[|s| - 1]) && !EndsWith(s, BETA) && !EndsWith(s, DASH_BETA)
  {
    var i := IndexOf(s, DOT, 0);
    var j := IndexOf(s, DOT, i + 1);
    assert s[0] == s[..i][0] && s[..i][0] in s[..i];
    assert s[|s| - 1] == s[j + 1..][|s| - j - 2] && s[j + 1..][|s| - j - 2] in s[j + 1..];
  }

  lemma SuffixParts(s: Text, suffix: Text)
    ensures EndsWith(s + suffix, suffix) && (s + suffix)[..|s + suffix| - |suffix|] == s
    ensures EndsWith(s, suffix) ==> s == s[..|s| - |suffix|] + suffix
  {
  }

  lemma ProductIsRendered(s: Text) returns (v: Version)
    requires ProductVersion(s)
    ensures s == Render(v)
  {
    hide NumericVersion, RenderNumeric, EndsWith;
    if NumericVersion(s) {
      var a, b, c := NumericIsRendered(s);
      v := Version(a, b, c, false);
      assert s + [] == s;
    } else {
      var a, b, c := NumericIsRendered(s[..|s| - |DASH_BETA|]);
      v := Version(a, b, c, true);
      SuffixParts(s, DASH_BETA);
    }
  }

  lemma RenderIsProduct(v: Version)
    ensures ProductVersion(Render(v))
  {
    hide NumericVersion, RenderNumeric, EndsWith;
    var n := RenderNumeric(v.major, v.minor, v.patch);
    RenderNumericIs(v.major, v.minor, v.patch);
    SuffixParts(n, DASH_BETA);
    assert n + [] == n;
  }

  /** The product pattern accepts the canonical texts, one for each version, and nothing else. */
  lemma PatternIsExact(s: Text)
    ensures ProductVersion(s) <==> exists v :: s == Render(v)
  {
    hide ProductVersion, Render;
    if ProductVersion(s) {
      var v := ProductIsRendered(s);
    }
    if v :| s == Render(v) {
      RenderIsProduct(v);
    }
  }

  lemma RenderIsInjective(v: Version, w: Version)
    requires Render(v) == Render(w)
    ensures v == w
  {
    hide NumericVersion, RenderNumeric, EndsWith;
    var n, m := RenderNumeric(v.major, v.minor, v.patch), RenderNumeric(w.major, w.minor, w.patch);
    BetaEnds(v);
    BetaEnds(w);
    SuffixParts(n, DASH_BETA);
    SuffixParts(m, DASH_BETA);
    assert n + [] == n && m + [] == m;
    NumericIsUnique(v.major, v.minor, v.patch, w.major, w.minor, w.patch);
  }

  lemma BetaEnds(v: Version)
    ensures EndsWith(Render(v), DASH_BETA) <==> v.beta
  {
    hide NumericVersion, RenderNumeric, EndsWith;
    var n := RenderNumeric(v.major, v.minor, v.patch);
    RenderNumericIs(v.major, v.minor, v.patch);
    NumericEnds(n);
    SuffixParts(n, DASH_BETA);
    assert n + [] == n;
  }

  // ----- the results -----

  /** How a version may be written: canonically, or compactly when it is a beta, with or without a v. */
  ghost predicate Spelling(value: Text, v: Version) {
    value == Render(v) || value == [LOWER_V] + Render(v) ||
    (v.beta && (value == Compact(v) || value == [LOWER_V] + Compact(v)))
  }

  lemma RenderStarts(v: Version)
    ensures Render(v) != [] && Digit(Render(v)[0]) && Render(v)[0] != LOWER_V
  {
    RenderNumericIs(v.major, v.minor, v.patch);
    hide RenderNumeric, NumericVersion;
  }

  /** A canonical text is not also a compact one. */
  lemma RenderIsNotCompact(v: Version)
    ensures EndsWith(Render(v), BETA) ==> !NumericVersion(Render(v)[..|Render(v)| - |BETA|])
  {
    hide RenderNumeric, NumericVersion, EndsWith;
    var n := RenderNumeric(v.major, v.minor, v.patch);
    RenderNumericIs(v.major, v.minor, v.patch);
    NumericEnds(n);
    var s := Render(v);
    if v.beta {
      var t := n + [DASH];
      assert s == t + BETA;
      SuffixParts(t, BETA);
      if NumericVersion(t) {
        NumericEnds(t);
      }
    } else {
      assert s == n;
    }
  }

  function Compact(v: Version): Text {
    RenderNumeric(v.major, v.minor, v.patch) + BETA
  }

  lemma CompactIsNormalized(v: Version)
    requires v.beta
    ensures Normalize(Compact(v)) == Canonical(Render(v)) && Compact(v) != [] && Digit(Compact(v)[0])
  {
    hide RenderNumeric, NumericVersion, EndsWith, ProductVersion;
    RenderNumericIs(v.major, v.minor, v.patch);
    SuffixParts(RenderNumeric(v.major, v.minor, v.patch), BETA);
    RenderIsProduct(v);
  }

  /** A v before a digit makes no difference. */
  lemma PrefixIsDropped(value: Text)
    requires value != [] && Digit(value[0])
    ensures Normalize([LOWER_V] + value) == Normalize(value)
  {
    hide NumericVersion, EndsWith, ProductVersion;
    assert ([LOWER_V] + value)[1..] == value;
  }

  /** What is normalized is a spelling. */
  lemma NormalizedIsSpelling(value: Text) returns (v: Version)
    requires Normalize(value).Canonical?
    ensures Normalize(value) == Canonical(Render(v)) && Spelling(value, v)
  {
    hide NumericVersion, EndsWith, ProductVersion, RenderNumeric;
    var prefixed := |value| >= 2 && value[0] == LOWER_V && Digit(value[1]);
    var unprefixed := if prefixed then value[1..] else value;
    assert prefixed ==> value == [LOWER_V] + unprefixed;
    var text := Normalize(value).text;
    if EndsWith(unprefixed, BETA) && NumericVersion(unprefixed[..|unprefixed| - |BETA|]) {
      var a, b, c := NumericIsRendered(unprefixed[..|unprefixed| - |BETA|]);
      v := Version(a, b, c, true);
      SuffixParts(unprefixed, BETA);
    } else {
      v := ProductIsRendered(text);
    }
  }

  /** Normalization accepts exactly the spellings of versions, and gives the canonical text of the
      version that is spelled; normalizing again changes nothing. */
  lemma NormalizationIsExact(value: Text, v: Version)
    ensures Normalize(value) == Canonical(Render(v)) <==> Spelling(value, v)
    ensures Normalize(Render(v)) == Canonical(Render(v))
  {
    hide Render, Compact, NumericVersion, EndsWith, ProductVersion;
    RenderStarts(v);
    RenderIsNotCompact(v);
    RenderIsProduct(v);
    assert Normalize(Render(v)) == Canonical(Render(v));
    PrefixIsDropped(Render(v));
    if v.beta {
      CompactIsNormalized(v);
      PrefixIsDropped(Compact(v));
    }
    hide Normalize;
    if Normalize(value) == Canonical(Render(v)) {
      var w := NormalizedIsSpelling(value);
      RenderIsInjective(v, w);
    }
  }

  // ----- precedence -----

  /** Negative, zero or positive as `a` comes before, with or after `b`. */
  function Compare(a: Version, b: Version): int {
    if a.major != b.major then a.major - b.major
    else if a.minor != b.minor then a.minor - b.minor
    else if a.patch != b.patch then a.patch - b.patch
    else if a.beta == b.beta then 0 else if a.beta then -1 else 1
  }

  /** A dot-separated identifier of a pre-release. */
  datatype Identifier = Numeric(number: nat) | Alphanumeric(text: Text)

  function Fields(v: Version): seq<nat> {
    [v.major, v.minor, v.patch]
  }

  function Identifiers(v: Version): seq<Identifier> {
    if v.beta then [Alphanumeric(BETA)] else []
  }

  /** At the first place where they differ, the one comes before the other, or has ended. */
  ghost predicate FirstDifference<T>(a: seq<T>, b: seq<T>, k: nat) {
    k <= |a| && k <= |b| && a[..k] == b[..k] && (k < |a| && k < |b| ==> a[k] != b[k])
  }

  /** Identifiers of letters and digits are compared in ASCII order. */
  ghost predicate TextBefore(a: Text, b: Text) {
    exists k: nat :: FirstDifference(a, b, k) && k < |b| && (k == |a| || a[k] < b[k])
  }

  /** Numeric identifiers are compared as numbers, and come before the others. */
  ghost predicate IdentifierBefore(a: Identifier, b: Identifier) {
    match (a, b)
    case (Numeric(m), Numeric(n)) => m < n
    case (Numeric(_), Alphanumeric(_)) => true
    case (Alphanumeric(_), Numeric(_)) => false
    case (Alphanumeric(s), Alphanumeric(t)) => TextBefore(s, t)
  }

  /** Item by item from left to right; of two lists that agree, the shorter one comes first. */
  ghost predicate ListBefore(a: seq<Identifier>, b: seq<Identifier>) {
    exists k: nat :: FirstDifference(a, b, k) && k < |b| && (k == |a| || IdentifierBefore(a[k], b[k]))
  }

  ghost predicate FieldsBefore(a: seq<nat>, b: seq<nat>) {
    exists k: nat :: FirstDifference(a, b, k) && k < |a| && k < |b| && a[k] < b[k]
  }

  /** Precedence as section 11 of Semantic Versioning 2.0.0 states it: the numeric fields decide from left
      to right; with equal ones a pre-release comes before its release, and two pre-releases are compared
      by their identifiers. */
  ghost predicate Precedes(a: Version, b: Version) {
    FieldsBefore(Fields(a), Fields(b)) ||
    (Fields(a) == Fields(b) &&
     (if Identifiers(b) == [] then Identifiers(a) != []
      else Identifiers(a) != [] && ListBefore(Identifiers(a), Identifiers(b))))
  }

  lemma FieldsOrder(a: Version, b: Version)
    ensures FieldsBefore(Fields(a), Fields(b)) <==>
      a.major < b.major || (a.major == b.major && (a.minor < b.minor || (a.minor == b.minor && a.patch < b.patch)))
    ensures Fields(a) == Fields(b) <==> a.major == b.major && a.minor == b.minor && a.patch == b.patch
  {
    var x, y := Fields(a), Fields(b);
    assert x[0] == a.major && x[1] == a.minor && x[2] == a.patch;
    assert y[0] == b.major && y[1] == b.minor && y[2] == b.patch;
    if k: nat :| FirstDifference(x, y, k) && k < |x| && k < |y| && x[k] < y[k] {
      assert forall i :: 0 <= i < k ==> x[..k][i] == y[..k][i];
      assert k == 0 || k == 1 || k == 2;
      assert k > 0 ==> x[0] == x[..k][0] && y[0] == y[..k][0];
      assert k > 1 ==> x[1] == x[..k][1] && y[1] == y[..k][1];
    }
    if a.major < b.major {
      assert FirstDifference(x, y, 0);
    } else if a.major == b.major && a.minor < b.minor {
      assert FirstDifference(x, y, 1);
    } else if a.major == b.major && a.minor == b.minor && a.patch < b.patch {
      assert FirstDifference(x, y, 2);
    }
  }

  lemma NeverBeforeItself(a: seq<Identifier>)
    ensures !ListBefore(a, a)
  {
  }

  /** The sign of the comparison is precedence, and it is 0 for equal versions only. */
  lemma CompareIsPrecedence(a: Version, b: Version)
    ensures Compare(a, b) < 0 <==> Precedes(a, b)
    ensures Compare(a, b) > 0 <==> Precedes(b, a)
    ensures Compare(a, b) == 0 <==> a == b
  {
    FieldsOrder(a, b);
    FieldsOrder(b, a);
    NeverBeforeItself(Identifiers(a));
  }

  /** The same for all versions. */
  lemma ComparesPrecedence()
    ensures forall a, b :: Precedes(a, b) <==> Compare(a, b) < 0
  {
    hide Precedes, Compare;
    forall a, b ensures Precedes(a, b) <==> Compare(a, b) < 0 {
      CompareIsPrecedence(a, b);
    }
  }

  /** Precedence is a strict total order. */
  lemma PrecedenceIsTotal(a: Version, b: Version, c: Version)
    ensures !Precedes(a, a)
    ensures a == b || Precedes(a, b) || Precedes(b, a)
    ensures Precedes(a, b) ==> a != b && !Precedes(b, a)
    ensures Precedes(a, b) && Precedes(b, c) ==> Precedes(a, c)
  {
    hide Precedes;
    CompareIsPrecedence(a, a);
    CompareIsPrecedence(a, b);
    CompareIsPrecedence(b, c);
    CompareIsPrecedence(a, c);
  }

  ghost predicate AtMost(a: Version, b: Version) {
    a == b || Precedes(a, b)
  }
}

/**
 * Kernel version ordering (analyzer.py `compare_kernel_versions`): the prefix
 * `major.minor.patch-build` is matched on both strings and compared as a tuple of integers;
 * when either string does not have that prefix, the two strings are compared by code point.
 */
module Version {
  import opened Errors
  import opened Text

  /** The four digit runs matched by `^(\d+)\.(\d+)\.(\d+)-(\d+)`, and what follows them. */
  datatype PrefixMatch = PrefixMatch(major: string, minor: string, patch: string, build: string, rest: string)

  /** The numeric key `(major, minor, patch, build)` the comparison orders by. */
  datatype VersionKey = VersionKey(major: nat, minor: nat, patch: nat, build: nat)

  /** A non-empty run of digits, what one `(\d+)` group captures. */
  predicate IsRun(s: string) {
    |s| > 0 && AllDigits(s)
  }

  /** The separators between the four `(\d+)` groups of the pattern, in order. */
  const Separators: string := "..-"

  /** The digit runs a sequence of groups captured, and the text after the last one. */
  datatype Groups = Groups(runs: seq<string>, rest: string)

  /** `runs[0] + seps[0] + runs[1] + ... + seps[k-1] + runs[k] + rest`: the text the groups came from. */
  function Joined(runs: seq<string>, seps: string, rest: string): string
    requires |runs| == |seps| + 1
    decreases |seps|
  {
    if |seps| == 0 then runs[0] + rest
    else runs[0] + ([seps[0]] + Joined(runs[1..], seps[1..], rest))
  }

  /**
   * The regular expression `(\d+)` `seps[0]` `(\d+)` ... `(\d+)` anchored at the front of `s`. Each
   * group is greedy and, the separators of the pattern not being digits, takes the maximal digit
   * run before its separator; no backtracking is ever needed.
   */
  function MatchGroups(s: string, seps: string): (g: Option<Groups>)
    ensures g.Some? ==> |g.value.runs| == |seps| + 1
    decreases |seps|
  {
    var n := LeadingDigits(s);
    if n == 0 then None
    else if |seps| == 0 then Some(Groups([s[..n]], s[n..]))
    else if n == |s| || s[n] != seps[0] then None
    else
      match MatchGroups(s[n + 1..], seps[1..])
      case None => None
      case Some(g) => Some(Groups([s[..n]] + g.runs, g.rest))
  }

  /** `re.match(r'^(\d+)\.(\d+)\.(\d+)-(\d+)', s)`: the four groups and what follows them. */
  function MatchPrefix(s: string): Option<PrefixMatch> {
    match MatchGroups(s, Separators)
    case None => None
    case Some(g) => Some(PrefixMatch(g.runs[0], g.runs[1], g.runs[2], g.runs[3], g.rest))
  }

  /** The text a match was read from: the four groups, their separators, and the rest. */
  function Spell(m: PrefixMatch): string {
    m.major + (['.'] + (m.minor + (['.'] + (m.patch + (['-'] + (m.build + m.rest))))))
  }

  /** The integers `int(match.group(i))` for i in 1..4, or None when the prefix does not match. */
  function ParseKey(s: string): Option<VersionKey> {
    MatchPrefixSound(s);
    match MatchPrefix(s)
    case None => None
    case Some(m) => Some(VersionKey(DigitsValue(m.major), DigitsValue(m.minor), DigitsValue(m.patch), DigitsValue(m.build)))
  }

  /** The list `[major, minor, patch, build]` the source zips over. */
  function Parts(k: VersionKey): seq<nat> {
    [k.major, k.minor, k.patch, k.build]
  }

  /** The zip loop: the first differing position decides; equal lists give 0. */
  function CompareParts(p: seq<nat>, q: seq<nat>): (r: int)
    ensures -1 <= r <= 1
  {
    if |p| == 0 || |q| == 0 then 0
    else if p[0] < q[0] then -1
    else if p[0] > q[0] then 1
    else CompareParts(p[1..], q[1..])
  }

  /** The fallback branch: `-1` if `a < b`, `1` if `a > b`, else `0`, on Python strings. */
  function CompareStrings(a: string, b: string): int {
    if StrLess(a, b) then -1 else if StrLess(b, a) then 1 else 0
  }

  /** `compare_kernel_versions(version1, version2)`. */
  function CompareKernelVersions(version1: string, version2: string): (r: int)
    ensures r == -1 || r == 0 || r == 1
  {
    var k1 := ParseKey(version1);
    var k2 := ParseKey(version2);
    if k1.None? || k2.None? then CompareStrings(version1, version2)
    else CompareParts(Parts(k1.value), Parts(k2.value))
  }

  // ----- A reference definition of the numeric order -----

  /** Lexicographic comparison of two keys, written out field by field. */
  function TupleCompare(x: VersionKey, y: VersionKey): int {
    if x.major != y.major then (if x.major < y.major then -1 else 1)
    else if x.minor != y.minor then (if x.minor < y.minor then -1 else 1)
    else if x.patch != y.patch then (if x.patch < y.patch then -1 else 1)
    else if x.build != y.build then (if x.build < y.build then -1 else 1)
    else 0
  }

  /** The version has a numeric prefix, so it compares by its key. */
  predicate HasKey(v: string) {
    ParseKey(v).Some?
  }

  /** Both strings have a numeric prefix. */
  predicate BothNumeric(a: string, b: string) {
    HasKey(a) && HasKey(b)
  }

  // ----- Properties of the prefix match -----

  /** Every group is a digit run and the rest does not start with a digit. */
  lemma {:induction false} MatchGroupsRuns(s: string, seps: string)
    ensures var g := MatchGroups(s, seps);
      g.Some? ==>
        && (forall i :: 0 <= i < |g.value.runs| ==> IsRun(g.value.runs[i]))
        && (|g.value.rest| > 0 ==> !IsDigit(g.value.rest[0]))
    decreases |seps|
  {
    var n := LeadingDigits(s);
    if n > 0 && |seps| > 0 && n < |s| && s[n] == seps[0] {
      var t := MatchGroups(s[n + 1..], seps[1..]);
      MatchGroupsRuns(s[n + 1..], seps[1..]);
      if t.Some? {
        var runs := [s[..n]] + t.value.runs;
        assert MatchGroups(s, seps) == Some(Groups(runs, t.value.rest));
        forall i | 0 <= i < |runs|
          ensures IsRun(runs[i])
        {
          if i > 0 {
            assert runs[i] == t.value.runs[i - 1];
          }
        }
      }
    }
  }

  /** The groups, the separators and the rest spell `s` again. */
  lemma {:induction false} MatchGroupsSpells(s: string, seps: string)
    ensures var g := MatchGroups(s, seps);
      g.Some? ==> s == Joined(g.value.runs, seps, g.value.rest)
    decreases |seps|
  {
    var n := LeadingDigits(s);
    if n > 0 && |seps| > 0 && n < |s| && s[n] == seps[0] {
      var t := MatchGroups(s[n + 1..], seps[1..]);
      MatchGroupsSpells(s[n + 1..], seps[1..]);
      if t.Some? {
        JoinedCons(s[..n], t.value.runs, seps, t.value.rest);
        SplitAround(s, n);
      }
    } else if n > 0 && |seps| == 0 {
      assert s == s[..n] + s[n..];
    }
  }

  lemma JoinedCons(run: string, runs: seq<string>, seps: string, rest: string)
    requires |seps| > 0 && |runs| == |seps|
    ensures Joined([run] + runs, seps, rest) == run + ([seps[0]] + Joined(runs, seps[1..], rest))
  {
    assert ([run] + runs)[1..] == runs;
  }

  lemma SplitAround(s: string, n: nat)
    requires n < |s|
    ensures s == s[..n] + ([s[n]] + s[n + 1..])
  {
  }

  /** What `MatchPrefix` captures: four digit runs, a rest not starting with a digit, spelling `s`. */
  lemma MatchPrefixSound(s: string)
    ensures var m := MatchPrefix(s);
      m.Some? ==>
        && IsRun(m.value.major) && IsRun(m.value.minor) && IsRun(m.value.patch) && IsRun(m.value.build)
        && (|m.value.rest| > 0 ==> !IsDigit(m.value.rest[0]))
        && s == Spell(m.value)
  {
    MatchGroupsRuns(s, Separators);
    MatchGroupsSpells(s, Separators);
    var g := MatchGroups(s, Separators);
    if g.Some? {
      var r := g.value.runs;
      assert IsRun(r[0]) && IsRun(r[1]) && IsRun(r[2]) && IsRun(r[3]);
      JoinedFour(r, g.value.rest);
    }
  }

  /** `Joined` over the pattern's separators is `Spell`. */
  lemma JoinedFour(r: seq<string>, rest: string)
    requires |r| == 4
    ensures Joined(r, Separators, rest) == Spell(PrefixMatch(r[0], r[1], r[2], r[3], rest))
  {
    assert Separators[1..] == ".-" && Separators[1..][1..] == "-" && Separators[1..][1..][1..] == "";
    assert r[1..][0] == r[1] && r[1..][1..][0] == r[2] && r[1..][1..][1..][0] == r[3];
  }

  /** A leading digit run followed by the pattern's next separator is that group, exactly. */
  lemma GroupThenSeparator(run: string, tail: string, seps: string)
    requires IsRun(run) && |seps| > 0 && !IsDigit(seps[0])
    ensures MatchGroups(run + ([seps[0]] + tail), seps) ==
      match MatchGroups(tail, seps[1..])
      case None => None
      case Some(g) => Some(Groups([run] + g.runs, g.rest))
  {
    var s := run + ([seps[0]] + tail);
    LeadingDigitsAppend(run, [seps[0]] + tail);
    assert LeadingDigits([seps[0]] + tail) == 0;
    assert s[|run|] == seps[0];
    assert s[..|run|] == run && s[|run| + 1..] == tail;
  }

  /** The last group takes the digit run and every digit that follows it. */
  lemma LastGroup(d: string, rest: string)
    requires IsRun(d)
    ensures var n := LeadingDigits(rest);
      MatchGroups(d + rest, "") == Some(Groups([d + rest[..n]], rest[n..]))
  {
    var n := LeadingDigits(rest);
    LeadingDigitsAppend(d, rest);
    SplitAfter(d, rest, n);
  }

  /** One step of `MatchPrefixComplete`: a matched tail with one more group in front. */
  lemma PrependGroup(run: string, tail: string, seps: string, runs: seq<string>, rest: string)
    requires IsRun(run) && |seps| > 0 && !IsDigit(seps[0])
    requires MatchGroups(tail, seps[1..]) == Some(Groups(runs, rest))
    ensures MatchGroups(run + ([seps[0]] + tail), seps) == Some(Groups([run] + runs, rest))
  {
    GroupThenSeparator(run, tail, seps);
  }

  /**
   * Any string of the form `a.b.c-d…` with digit runs `a`, `b`, `c`, `d` matches; the first three
   * groups are exactly `a`, `b`, `c`, and the last group extends `d` by the digits that follow it.
   */
  lemma MatchPrefixComplete(a: string, b: string, c: string, d: string, rest: string)
    requires IsRun(a) && IsRun(b) && IsRun(c) && IsRun(d)
    ensures var n := LeadingDigits(rest);
      MatchPrefix(Spell(PrefixMatch(a, b, c, d, rest))) == Some(PrefixMatch(a, b, c, d + rest[..n], rest[n..]))
  {
    var n := LeadingDigits(rest);
    var e := d + rest[..n];
    var s3 := d + rest;
    var s2 := c + (['-'] + s3);
    var s1 := b + (['.'] + s2);
    var s := a + (['.'] + s1);
    SeparatorsSpelled();
    ConsRuns(a, b, c, e);
    LastGroup(d, rest);
    PrependGroup(c, s3, "-", [e], rest[n..]);
    PrependGroup(b, s2, ".-", [c, e], rest[n..]);
    PrependGroup(a, s1, Separators, [b, c, e], rest[n..]);
    assert s == Spell(PrefixMatch(a, b, c, d, rest));
  }

  lemma SeparatorsSpelled()
    ensures Separators[0] == '.' && Separators[1..] == ".-"
    ensures ".-"[0] == '.' && ".-"[1..] == "-"
    ensures "-"[0] == '-' && "-"[1..] == ""
  {
  }

  lemma ConsRuns(a: string, b: string, c: string, e: string)
    ensures [c] + [e] == [c, e] && [b] + [c, e] == [b, c, e] && [a] + [b, c, e] == [a, b, c, e]
  {
  }

  lemma SplitAfter(d: string, rest: string, n: nat)
    requires n <= |rest|
    ensures (d + rest)[..|d| + n] == d + rest[..n]
    ensures (d + rest)[|d| + n..] == rest[n..]
  {
  }

  /** The digit prefix of `run + tail` is `run` followed by the digit prefix of `tail`. */
  lemma {:induction false} LeadingDigitsAppend(run: string, tail: string)
    requires AllDigits(run)
    ensures LeadingDigits(run + tail) == |run| + LeadingDigits(tail)
    decreases |run|
  {
    if |run| > 0 {
      AllDigitsAt(run, 0);
      AllDigitsTail(run);
      assert (run + tail)[0] == run[0];
      assert (run + tail)[1..] == run[1..] + tail;
      LeadingDigitsAppend(run[1..], tail);
    } else {
      assert run + tail == tail;
    }
  }


  /** Anything after the build number that does not start with a digit is ignored by the parse. */
  lemma ParseIgnoresSuffix(a: string, b: string, c: string, d: string, suffix: string)
    requires IsRun(a) && IsRun(b) && IsRun(c) && IsRun(d)
    requires |suffix| > 0 ==> !IsDigit(suffix[0])
    ensures ParseKey(Spell(PrefixMatch(a, b, c, d, suffix))) ==
            Some(VersionKey(DigitsValue(a), DigitsValue(b), DigitsValue(c), DigitsValue(d)))
  {
    MatchPrefixComplete(a, b, c, d, suffix);
    assert LeadingDigits(suffix) == 0;
    assert d + suffix[..0] == d;
  }

  /** A string whose first character is not a digit has no numeric key. */
  lemma NoKeyWithoutLeadingDigit(s: string)
    requires |s| == 0 || !IsDigit(s[0])
    ensures ParseKey(s) == None
  {
  }

  // ----- Properties of the comparison -----

  /** The zip loop over two four-element lists is the tuple order. */
  lemma ComparePartsIsTupleOrder(x: VersionKey, y: VersionKey)
    ensures CompareParts(Parts(x), Parts(y)) == TupleCompare(x, y)
  {
    var p, q := Parts(x), Parts(y);
    var p1, q1 := [x.minor, x.patch, x.build], [y.minor, y.patch, y.build];
    var p2, q2 := [x.patch, x.build], [y.patch, y.build];
    var p3, q3 := [x.build], [y.build];
    assert p[1..] == p1 && q[1..] == q1;
    assert p1[1..] == p2 && q1[1..] == q2;
    assert p2[1..] == p3 && q2[1..] == q3;
    assert CompareParts(p3[1..], q3[1..]) == 0;
    assert CompareParts(p3, q3) == if x.build < y.build then -1 else if x.build > y.build then 1 else 0;
    assert CompareParts(p2, q2) == if x.patch < y.patch then -1 else if x.patch > y.patch then 1 else CompareParts(p3, q3);
    assert CompareParts(p1, q1) == if x.minor < y.minor then -1 else if x.minor > y.minor then 1 else CompareParts(p2, q2);
    assert CompareParts(p, q) == if x.major < y.major then -1 else if x.major > y.major then 1 else CompareParts(p1, q1);
  }

  /** Numeric branch: when both strings match the prefix, the result is the tuple order. */
  lemma NumericBranch(a: string, b: string)
    requires BothNumeric(a, b)
    ensures CompareKernelVersions(a, b) == TupleCompare(ParseKey(a).value, ParseKey(b).value)
  {
    ComparePartsIsTupleOrder(ParseKey(a).value, ParseKey(b).value);
  }

  /** Fallback branch: otherwise the result is ordinal string order, 0 only for equal strings. */
  lemma FallbackBranch(a: string, b: string)
    requires !BothNumeric(a, b)
    ensures CompareKernelVersions(a, b) == -1 <==> StrLess(a, b)
    ensures CompareKernelVersions(a, b) == 1 <==> StrLess(b, a)
    ensures CompareKernelVersions(a, b) == 0 <==> a == b
  {
    if StrLess(a, b) {
      StrLessAsymmetric(a, b);
    }
    if a == b {
      StrLessIrreflexive(a);
    } else {
      StrLessTotal(a, b);
    }
  }

  /** Every version compares equal to itself. */
  lemma CompareReflexive(a: string)
    ensures CompareKernelVersions(a, a) == 0
  {
    if ParseKey(a).Some? {
      NumericBranch(a, a);
    } else {
      StrLessIrreflexive(a);
    }
  }

  /** Swapping the arguments negates the result, in both branches. */
  lemma CompareAntisymmetric(a: string, b: string)
    ensures CompareKernelVersions(a, b) == -CompareKernelVersions(b, a)
  {
    if BothNumeric(a, b) {
      NumericBranch(a, b);
      NumericBranch(b, a);
    } else {
      FallbackBranch(a, b);
      FallbackBranch(b, a);
    }
  }

  /** The tuple order is transitive, strictly so when either step is strict. */
  lemma TupleCompareTransitive(x: VersionKey, y: VersionKey, z: VersionKey)
    requires TupleCompare(x, y) <= 0 && TupleCompare(y, z) <= 0
    ensures TupleCompare(x, z) <= 0
    ensures TupleCompare(x, y) < 0 || TupleCompare(y, z) < 0 ==> TupleCompare(x, z) < 0
  {
  }

  /** Among numeric versions the comparison is transitive (a total preorder). */
  lemma CompareTransitive(a: string, b: string, c: string)
    requires ParseKey(a).Some? && ParseKey(b).Some? && ParseKey(c).Some?
    requires CompareKernelVersions(a, b) <= 0 && CompareKernelVersions(b, c) <= 0
    ensures CompareKernelVersions(a, c) <= 0
    ensures CompareKernelVersions(a, b) < 0 || CompareKernelVersions(b, c) < 0 ==> CompareKernelVersions(a, c) < 0
  {
    var x, y, z := ParseKey(a).value, ParseKey(b).value, ParseKey(c).value;
    NumericBranch(a, b);
    NumericBranch(b, c);
    NumericBranch(a, c);
    TupleCompareTransitive(x, y, z);
  }

  /** Two versions with equal numeric prefix compare equal whatever flavour suffix follows. */
  lemma FlavourIgnored(a: string, b: string, c: string, d: string, s1: string, s2: string)
    requires IsRun(a) && IsRun(b) && IsRun(c) && IsRun(d)
    requires |s1| > 0 ==> !IsDigit(s1[0])
    requires |s2| > 0 ==> !IsDigit(s2[0])
    ensures CompareKernelVersions(Spell(PrefixMatch(a, b, c, d, s1)), Spell(PrefixMatch(a, b, c, d, s2))) == 0
  {
    ParseIgnoresSuffix(a, b, c, d, s1);
    ParseIgnoresSuffix(a, b, c, d, s2);
    NumericBranch(Spell(PrefixMatch(a, b, c, d, s1)), Spell(PrefixMatch(a, b, c, d, s2)));
  }

  // ----- The documented cases -----

  lemma LowlatencyEqualsGeneric()
    ensures CompareKernelVersions("5.15.0-82-lowlatency", "5.15.0-82-generic") == 0
  {
    LowlatencySpelled();
    GenericSpelled();
    FlavourIgnored("5", "15", "0", "82", "-lowlatency", "-generic");
  }

  lemma LowlatencySpelled()
    ensures "5.15.0-82-lowlatency" == Spell(PrefixMatch("5", "15", "0", "82", "-lowlatency"))
    ensures IsRun("5") && IsRun("15") && IsRun("0") && IsRun("82") && !IsDigit("-lowlatency"[0])
  {
  }

  lemma GenericSpelled()
    ensures "5.15.0-82-generic" == Spell(PrefixMatch("5", "15", "0", "82", "-generic"))
    ensures !IsDigit("-generic"[0])
  {
  }

  /** With equal minor, patch and build, the larger major number wins, whatever the text order. */
  lemma MajorDecides(a1: string, a2: string, b: string, c: string, d: string, s1: string, s2: string)
    requires IsRun(a1) && IsRun(a2) && IsRun(b) && IsRun(c) && IsRun(d)
    requires |s1| > 0 ==> !IsDigit(s1[0])
    requires |s2| > 0 ==> !IsDigit(s2[0])
    requires DigitsValue(a1) > DigitsValue(a2)
    ensures CompareKernelVersions(Spell(PrefixMatch(a1, b, c, d, s1)), Spell(PrefixMatch(a2, b, c, d, s2))) == 1
  {
    ParseIgnoresSuffix(a1, b, c, d, s1);
    ParseIgnoresSuffix(a2, b, c, d, s2);
    NumericBranch(Spell(PrefixMatch(a1, b, c, d, s1)), Spell(PrefixMatch(a2, b, c, d, s2)));
  }

  /**
   * Mixing the two branches breaks transitivity: `9.0.0-1` < `10.0.0-1` numerically, `10.0.0-1`
   * < `9` and `9` < `9.0.0-1` as text.
   */
  lemma MixedVersionsCycle()
    ensures CompareKernelVersions("9.0.0-1", "10.0.0-1") == -1
    ensures CompareKernelVersions("10.0.0-1", "9") == -1
    ensures CompareKernelVersions("9", "9.0.0-1") == -1
  {
    NineSpelled();
    TenSpelled();
    ParseIgnoresSuffix("9", "0", "0", "1", "");
    ParseIgnoresSuffix("10", "0", "0", "1", "");
    NumericBranch("9.0.0-1", "10.0.0-1");
    assert ParseKey("9") == None;
    FallbackBranch("10.0.0-1", "9");
    FallbackBranch("9", "9.0.0-1");
    assert StrLess("10.0.0-1", "9");
    assert StrLess("9", "9.0.0-1");
  }

  lemma NineSpelled()
    ensures "9.0.0-1" == Spell(PrefixMatch("9", "0", "0", "1", ""))
    ensures IsRun("9") && IsRun("0") && IsRun("1")
  {
  }

  lemma TenSpelled()
    ensures "10.0.0-1" == Spell(PrefixMatch("10", "0", "0", "1", ""))
    ensures IsRun("10") && DigitsValue("10") == 10
  {
  }

  lemma CustomNamesCompareAsText()
    ensures CompareKernelVersions("custom-kernel-a", "custom-kernel-b") == -1
  {
    NoKeyWithoutLeadingDigit("custom-kernel-a");
    assert "custom-kernel-a" == "custom-kernel-" + "a" && "custom-kernel-b" == "custom-kernel-" + "b";
    StrLessCommonPrefix("custom-kernel-", "a", "b");
    FallbackBranch("custom-kernel-a", "custom-kernel-b");
  }
}

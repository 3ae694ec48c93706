/** Semantic versions: precedence (section 11 of SemVer 2.0.0, without build metadata) and Cargo's requirement matching. */
module Semver {
  import opened Basics

  datatype Identifier = Numeric(n: nat) | Alphanumeric(s: string)

  datatype Version = Version(major: nat, minor: nat, patch: nat, pre: seq<Identifier>)

  datatype Op = OpExact | OpGreater | OpGreaterEq | OpLess | OpLessEq | OpTilde | OpCaret | OpWildcard

  datatype Comparator = Comparator(op: Op, major: nat, minor: Option<nat>, patch: Option<nat>, pre: seq<Identifier>)

  predicate IdentifierLess(a: Identifier, b: Identifier) {
    match (a, b)
    case (Numeric(m), Numeric(n)) => m < n
    case (Numeric(_), Alphanumeric(_)) => true
    case (Alphanumeric(_), Numeric(_)) => false
    case (Alphanumeric(s), Alphanumeric(t)) => StringLess(s, t)
  }

  /** A version without a pre-release tag has higher precedence than one with. */
  predicate PreLess(a: seq<Identifier>, b: seq<Identifier>) {
    if a == [] then false
    else if b == [] then true
    else LexLess(a, b, IdentifierLess)
  }

  predicate VersionLess(a: Version, b: Version) {
    if a.major != b.major then a.major < b.major
    else if a.minor != b.minor then a.minor < b.minor
    else if a.patch != b.patch then a.patch < b.patch
    else PreLess(a.pre, b.pre)
  }

  predicate VersionLeq(a: Version, b: Version) {
    a == b || VersionLess(a, b)
  }

  predicate Release(v: Version) {
    v.pre == []
  }

  lemma PreLessStrictTotal()
    ensures StrictTotal(PreLess)
  {
    StringLessStrictTotal();
    assert StrictTotal(IdentifierLess);
    forall a, b
      ensures !PreLess(a, a) && (a == b || PreLess(a, b) || PreLess(b, a))
    {
      LexIrreflexive(a, IdentifierLess);
      LexTotal(a, b, IdentifierLess);
    }
    forall a, b, c | PreLess(a, b) && PreLess(b, c)
      ensures PreLess(a, c)
    {
      if c != [] {
        LexTransitive(a, b, c, IdentifierLess);
      }
    }
  }

  /** Precedence is a strict total order on versions. */
  lemma VersionLessStrictTotal()
    ensures forall a :: !VersionLess(a, a)
    ensures forall a, b, c :: VersionLess(a, b) && VersionLess(b, c) ==> VersionLess(a, c)
    ensures forall a, b :: a == b || VersionLess(a, b) || VersionLess(b, a)
  {
    PreLessStrictTotal();
  }

  /** The rules of precedence, field by field. */
  lemma PrecedenceRules(a: Version, b: Version)
    ensures a.major < b.major ==> VersionLess(a, b)
    ensures a.major == b.major && a.minor < b.minor ==> VersionLess(a, b)
    ensures a.major == b.major && a.minor == b.minor && a.patch < b.patch ==> VersionLess(a, b)
    ensures SameTriple(a, b) && !Release(a) && Release(b) ==> VersionLess(a, b)
    ensures SameTriple(a, b) && !Release(a) && a.pre < b.pre ==> VersionLess(a, b)
    ensures forall i :: SameTriple(a, b) && DecidedAt(a.pre, b.pre, i) ==> VersionLess(a, b)
  {
    if SameTriple(a, b) && !Release(a) && a.pre < b.pre {
      LexPrefix(a.pre, b.pre, IdentifierLess);
    }
    forall i | SameTriple(a, b) && DecidedAt(a.pre, b.pre, i)
      ensures VersionLess(a, b)
    {
      LowerIsLess(a.pre[i], b.pre[i]);
      LexAt(a.pre, b.pre, IdentifierLess, i);
    }
  }

  /** The identifiers before i are the same, and the one at i is lower. */
  ghost predicate DecidedAt(a: seq<Identifier>, b: seq<Identifier>, i: int) {
    0 <= i < |a| && i < |b| && a[..i] == b[..i] && Lower(a[i], b[i])
  }

  lemma LowerIsLess(x: Identifier, y: Identifier)
    requires Lower(x, y)
    ensures IdentifierLess(x, y)
  {
    if x.Alphanumeric? {
      if x.s < y.s {
        LexPrefix(x.s, y.s, CharLess);
      } else {
        var k :| 0 <= k < |x.s| && k < |y.s| && x.s[..k] == y.s[..k] && x.s[k] < y.s[k];
        LexAt(x.s, y.s, CharLess, k);
      }
    }
  }

  predicate SameTriple(a: Version, b: Version) {
    a.major == b.major && a.minor == b.minor && a.patch == b.patch
  }

  /** Numeric identifiers compare by value and are below alphanumeric ones, which compare character by character. */
  ghost predicate Lower(x: Identifier, y: Identifier) {
    if x.Numeric? then y.Alphanumeric? || x.n < y.n
    else y.Alphanumeric? && (x.s < y.s || exists k :: 0 <= k < |x.s| && k < |y.s| && x.s[..k] == y.s[..k] && x.s[k] < y.s[k])
  }

  predicate MatchesExact(c: Comparator, v: Version) {
    && v.major == c.major
    && (c.minor.Some? ==> v.minor == c.minor.value)
    && (c.patch.Some? ==> v.patch == c.patch.value)
    && v.pre == c.pre
  }

  predicate MatchesGreater(c: Comparator, v: Version) {
    if v.major != c.major then v.major > c.major
    else if c.minor.None? then false
    else if v.minor != c.minor.value then v.minor > c.minor.value
    else if c.patch.None? then false
    else if v.patch != c.patch.value then v.patch > c.patch.value
    else PreLess(c.pre, v.pre)
  }

  predicate MatchesLess(c: Comparator, v: Version) {
    if v.major != c.major then v.major < c.major
    else if c.minor.None? then false
    else if v.minor != c.minor.value then v.minor < c.minor.value
    else if c.patch.None? then false
    else if v.patch != c.patch.value then v.patch < c.patch.value
    else PreLess(v.pre, c.pre)
  }

  predicate MatchesTilde(c: Comparator, v: Version) {
    if v.major != c.major then false
    else if c.minor.Some? && v.minor != c.minor.value then false
    else if c.patch.Some? && v.patch != c.patch.value then v.patch > c.patch.value
    else v.pre == c.pre || PreLess(c.pre, v.pre)
  }

  predicate MatchesCaret(c: Comparator, v: Version) {
    if v.major != c.major then false
    else if c.minor.None? then true
    else if c.patch.None? then
      if c.major > 0 then v.minor >= c.minor.value else v.minor == c.minor.value
    else if c.major > 0 && v.minor != c.minor.value then v.minor > c.minor.value
    else if c.major > 0 && v.patch != c.patch.value then v.patch > c.patch.value
    else if c.major == 0 && v.minor != c.minor.value then false
    else if c.major == 0 && c.minor.value > 0 && v.patch != c.patch.value then v.patch > c.patch.value
    else if c.major == 0 && v.patch != c.patch.value then false
    else v.pre == c.pre || PreLess(c.pre, v.pre)
  }

  predicate MatchesOp(c: Comparator, v: Version) {
    match c.op
    case OpExact => MatchesExact(c, v)
    case OpWildcard => MatchesExact(c, v)
    case OpGreater => MatchesGreater(c, v)
    case OpGreaterEq => MatchesExact(c, v) || MatchesGreater(c, v)
    case OpLess => MatchesLess(c, v)
    case OpLessEq => MatchesExact(c, v) || MatchesLess(c, v)
    case OpTilde => MatchesTilde(c, v)
    case OpCaret => MatchesCaret(c, v)
  }

  /** `Comparator::matches`: a pre-release is only accepted by a comparator naming the same triple with a pre-release. */
  predicate Matches(c: Comparator, v: Version) {
    && MatchesOp(c, v)
    && (Release(v) || (c.major == v.major && c.minor == Some(v.minor) && c.patch == Some(v.patch) && c.pre != []))
  }

  /** `VersionReq::parse` of a full version: the single caret comparator `^x.y.z-pre`. */
  function CaretOf(v: Version): Comparator {
    Comparator(OpCaret, v.major, Some(v.minor), Some(v.patch), v.pre)
  }

  predicate CaretMatches(base: Version, v: Version) {
    Matches(CaretOf(base), v)
  }

  /** The lowest release of the compatibility class of v: Cargo's x.0.0, 0.y.0 or 0.0.z. */
  function ClassBase(v: Version): Version {
    if v.major > 0 then Version(v.major, 0, 0, [])
    else if v.minor > 0 then Version(0, v.minor, 0, [])
    else Version(0, 0, v.patch, [])
  }

  /** A comparator of the given operator over a full version. */
  function Full(op: Op, base: Version): Comparator {
    Comparator(op, base.major, Some(base.minor), Some(base.patch), base.pre)
  }

  /** A pre-release is only considered beside a base of the same triple that is one itself. */
  predicate PreAllowed(base: Version, v: Version) {
    Release(v) || (v.major == base.major && v.minor == base.minor && v.patch == base.patch && !Release(base))
  }

  /** Over a full version every operator accepts an interval of the precedence order, without the pre-releases not allowed. */
  lemma ComparatorIntervals(base: Version, v: Version)
    ensures Matches(Full(OpExact, base), v) <==> v == base
    ensures Matches(Full(OpGreater, base), v) <==> VersionLess(base, v) && PreAllowed(base, v)
    ensures Matches(Full(OpGreaterEq, base), v) <==> VersionLeq(base, v) && PreAllowed(base, v)
    ensures Matches(Full(OpLess, base), v) <==> VersionLess(v, base) && PreAllowed(base, v)
    ensures Matches(Full(OpLessEq, base), v) <==> VersionLeq(v, base) && PreAllowed(base, v)
    ensures Matches(Full(OpTilde, base), v) <==>
            VersionLeq(base, v) && v.major == base.major && v.minor == base.minor && PreAllowed(base, v)
    ensures Matches(Full(OpCaret, base), v) <==>
            VersionLeq(base, v) && ClassBase(v) == ClassBase(base) && PreAllowed(base, v)
  {
    PreLessStrictTotal();
  }

  /** Comparators without a patch accept whole ranges of releases, and no pre-release. */
  lemma MinorComparatorRanges(major: nat, minor: nat, v: Version)
    ensures forall op :: op in {OpExact, OpWildcard, OpTilde} ==>
              (Matches(Comparator(op, major, Some(minor), None, []), v) <==>
                 Release(v) && v.major == major && v.minor == minor)
    ensures Matches(Comparator(OpCaret, major, Some(minor), None, []), v) <==>
            Release(v) && v.major == major && (if major > 0 then v.minor >= minor else v.minor == minor)
    ensures Matches(Comparator(OpGreater, major, Some(minor), None, []), v) <==>
            Release(v) && VersionLeq(Version(major, minor + 1, 0, []), v)
    ensures Matches(Comparator(OpGreaterEq, major, Some(minor), None, []), v) <==>
            Release(v) && VersionLeq(Version(major, minor, 0, []), v)
    ensures Matches(Comparator(OpLess, major, Some(minor), None, []), v) <==>
            Release(v) && VersionLess(v, Version(major, minor, 0, []))
    ensures Matches(Comparator(OpLessEq, major, Some(minor), None, []), v) <==>
            Release(v) && VersionLess(v, Version(major, minor + 1, 0, []))
  {}

  /** The same for comparators with a major version only. */
  lemma MajorComparatorRanges(major: nat, v: Version)
    ensures forall op :: op in {OpExact, OpWildcard, OpTilde, OpCaret} ==>
              (Matches(Comparator(op, major, None, None, []), v) <==> Release(v) && v.major == major)
    ensures Matches(Comparator(OpGreater, major, None, None, []), v) <==> Release(v) && v.major > major
    ensures Matches(Comparator(OpGreaterEq, major, None, None, []), v) <==> Release(v) && v.major >= major
    ensures Matches(Comparator(OpLess, major, None, None, []), v) <==> Release(v) && v.major < major
    ensures Matches(Comparator(OpLessEq, major, None, None, []), v) <==> Release(v) && v.major <= major
  {}
}

/**
 * The UUID text-form check `uuidRegex` of src/util/misc.ts:
 *
 *   ^ [0-9a-fA-F]{8} \b - [0-9a-fA-F]{4} \b - [0-9a-fA-F]{4} \b - [0-9a-fA-F]{4} \b - [0-9a-fA-F]{12} $
 *
 * The pattern is written out as a small regular-expression syntax tree and
 * given the meaning `RegExp.prototype.test` gives it (a match starting at some
 * position of the input). The 8-4-4-4-12 layout of section 3 of RFC 4122 is a
 * second, positional definition, and the two are proved to agree; the `\b`
 * assertions turn out to add no constraint.
 */
module UuidFormat {

  /** The character class `[0-9a-fA-F]`. */
  predicate IsHexDigit(c: char) {
    '0' <= c <= '9' || 'a' <= c <= 'f' || 'A' <= c <= 'F'
  }

  /** The class `\w` of a regular expression without the `u` flag: `[A-Za-z0-9_]`. */
  predicate IsWordChar(c: char) {
    '0' <= c <= '9' || 'a' <= c <= 'z' || 'A' <= c <= 'Z' || c == '_'
  }

  /** `\b` at position `p`, between `s[p - 1]` and `s[p]`: exactly one side is a word character. */
  predicate AtWordBoundary(s: string, p: nat)
    requires p <= |s|
  {
    (p > 0 && IsWordChar(s[p - 1])) != (p < |s| && IsWordChar(s[p]))
  }

  /** The constructs the pattern is built from. */
  datatype Atom =
    | Begin            // ^  (no `m` flag: start of input)
    | Finish           // $  (no `m` flag: end of input)
    | Boundary         // \b
    | Lit(c: char)     // one literal character
    | Hex(count: nat)  // [0-9a-fA-F]{count}

  /** `count` hex digits starting at `p`. */
  predicate HexRun(s: string, p: nat, count: nat) {
    p + count <= |s| && forall i :: p <= i < p + count ==> IsHexDigit(s[i])
  }

  /**
   * Does `pattern` match `s` starting at position `p`? Every construct above
   * matches in at most one way, so no backtracking is involved. Text after the
   * match is allowed unless the pattern ends with `Finish`.
   */
  predicate MatchAt(pattern: seq<Atom>, s: string, p: nat)
    requires p <= |s|
    decreases |pattern|
  {
    if pattern == [] then true
    else
      match pattern[0]
      case Begin => p == 0 && MatchAt(pattern[1..], s, p)
      case Finish => p == |s| && MatchAt(pattern[1..], s, p)
      case Boundary => AtWordBoundary(s, p) && MatchAt(pattern[1..], s, p)
      case Lit(c) => p < |s| && s[p] == c && MatchAt(pattern[1..], s, p + 1)
      case Hex(n) => HexRun(s, p, n) && MatchAt(pattern[1..], s, p + n)
  }

  /** `RegExp.prototype.test` of a pattern without flags: a match starts somewhere in `s`. */
  predicate Test(pattern: seq<Atom>, s: string) {
    exists start :: 0 <= start <= |s| && MatchAt(pattern, s, start)
  }

  /** One `\b-[0-9a-fA-F]{n}` group. */
  function Group(n: nat): seq<Atom> {
    [Boundary, Lit('-'), Hex(n)]
  }

  /** `uuidRegex`, nested to the right so that the proofs can peel one group at a time. */
  const UuidPattern: seq<Atom> :=
    [Begin, Hex(8)] + (Group(4) + (Group(4) + (Group(4) + (Group(12) + [Finish]))))

  /** `uuidRegex.test(s)`. */
  predicate IsUuid(s: string) {
    Test(UuidPattern, s)
  }

  /** The indices of the four hyphens of the 8-4-4-4-12 layout. */
  predicate IsHyphenIndex(i: int) {
    i == 8 || i == 13 || i == 18 || i == 23
  }

  /** The RFC 4122 string form by position: 36 characters, hyphens at 8, 13, 18, 23, hex digits elsewhere. */
  predicate IsCanonicalUuid(s: string) {
    && |s| == 36
    && forall i :: 0 <= i < |s| ==> if IsHyphenIndex(i) then s[i] == '-' else IsHexDigit(s[i])
  }

  /**
   * Why the `\b` assertions of `uuidRegex` never reject anything: each one sits
   * after a hex digit, a word character, and before `-`, which is not one.
   */
  lemma BoundaryBetweenHexAndHyphen(s: string, p: nat)
    requires 0 < p < |s| && IsHexDigit(s[p - 1]) && s[p] == '-'
    ensures AtWordBoundary(s, p)
  {
  }

  /** Matching one `\b-[0-9a-fA-F]{n}` group right after a hex digit: the `\b` costs nothing. */
  lemma GroupMatch(n: nat, rest: seq<Atom>, s: string, p: nat)
    requires 0 < p <= |s| && IsHexDigit(s[p - 1])
    ensures MatchAt(Group(n) + rest, s, p) <==>
      p < |s| && s[p] == '-' && HexRun(s, p + 1, n) && MatchAt(rest, s, p + 1 + n)
  {
    var pattern := Group(n) + rest;
    assert pattern[0] == Boundary && pattern[1..] == [Lit('-'), Hex(n)] + rest;
    var afterBoundary := pattern[1..];
    assert afterBoundary[0] == Lit('-') && afterBoundary[1..] == [Hex(n)] + rest;
    var afterHyphen := afterBoundary[1..];
    assert afterHyphen[0] == Hex(n) && afterHyphen[1..] == rest;
    if p < |s| && s[p] == '-' {
      BoundaryBetweenHexAndHyphen(s, p);
      assert MatchAt(pattern, s, p) == MatchAt(afterBoundary, s, p);
      assert MatchAt(afterBoundary, s, p) == MatchAt(afterHyphen, s, p + 1);
      assert MatchAt(afterHyphen, s, p + 1) == (HexRun(s, p + 1, n) && MatchAt(rest, s, p + 1 + n));
    } else {
      assert MatchAt(pattern, s, p) ==> MatchAt(afterBoundary, s, p);
    }
  }

  /** Matching `uuidRegex` from the start of `s` is exactly the positional layout. */
  lemma MatchAtStartIffCanonical(s: string)
    ensures MatchAt(UuidPattern, s, 0) <==> IsCanonicalUuid(s)
  {
    var t4 := Group(12) + [Finish];
    var t3 := Group(4) + t4;
    var t2 := Group(4) + t3;
    var t1 := Group(4) + t2;
    assert UuidPattern[0] == Begin && UuidPattern[1..] == [Hex(8)] + t1;
    var afterBegin := UuidPattern[1..];
    assert afterBegin[0] == Hex(8) && afterBegin[1..] == t1;
    assert MatchAt(UuidPattern, s, 0) <==> HexRun(s, 0, 8) && MatchAt(t1, s, 8);
    if HexRun(s, 0, 8) {
      GroupMatch(4, t2, s, 8);
      if 8 < |s| && s[8] == '-' && HexRun(s, 9, 4) {
        GroupMatch(4, t3, s, 13);
        if 13 < |s| && s[13] == '-' && HexRun(s, 14, 4) {
          GroupMatch(4, t4, s, 18);
          if 18 < |s| && s[18] == '-' && HexRun(s, 19, 4) {
            GroupMatch(12, [Finish], s, 23);
            if 23 < |s| && s[23] == '-' && HexRun(s, 24, 12) {
              assert MatchAt([Finish], s, 36) <==> |s| == 36;
            }
          }
        }
      }
    }
  }

  /** `uuidRegex` accepts exactly the strings of the positional layout (length 36, hyphens at 8, 13, 18, 23). */
  lemma AcceptsIffCanonical(s: string)
    ensures IsUuid(s) <==> IsCanonicalUuid(s)
  {
    MatchAtStartIffCanonical(s);
    if IsUuid(s) {
      var start :| 0 <= start <= |s| && MatchAt(UuidPattern, s, start);
      assert UuidPattern[0] == Begin;
      assert start == 0;
    }
    if IsCanonicalUuid(s) {
      assert MatchAt(UuidPattern, s, 0);
    }
  }

  /** Every accepted string has length 36, hyphens at 8, 13, 18 and 23 and 32 hex digits elsewhere. */
  lemma AcceptedShape(s: string)
    requires IsUuid(s)
    ensures |s| == 36
    ensures s[8] == '-' && s[13] == '-' && s[18] == '-' && s[23] == '-'
    ensures forall i :: 0 <= i < 36 && !IsHyphenIndex(i) ==> IsHexDigit(s[i])
  {
    AcceptsIffCanonical(s);
  }

  /** The anchors: an accepted string with anything before or after it is rejected. */
  lemma RejectsSurroundingText(prefix: string, u: string, suffix: string)
    requires IsUuid(u)
    requires |prefix| + |suffix| > 0
    ensures !IsUuid(prefix + u + suffix)
  {
    AcceptsIffCanonical(u);
    AcceptsIffCanonical(prefix + u + suffix);
  }

  /** Swaps an ASCII letter between upper and lower case; every other character is left alone. */
  function FlipCase(c: char): (d: char)
    ensures IsHexDigit(d) <==> IsHexDigit(c)
    ensures d == '-' <==> c == '-'
  {
    if 'a' <= c <= 'z' then (c as int - 32) as char
    else if 'A' <= c <= 'Z' then (c as int + 32) as char
    else c
  }

  /** Flipping the case twice gives back the character. */
  lemma FlipCaseTwice(c: char)
    ensures FlipCase(FlipCase(c)) == c
  {
  }

  /** `t` is `s` with any of its letters switched between upper and lower case. */
  predicate SameUpToCase(s: string, t: string) {
    |s| == |t| && forall i :: 0 <= i < |s| ==> t[i] == s[i] || t[i] == FlipCase(s[i])
  }

  /** Acceptance does not depend on letter case. */
  lemma CaseInsensitive(s: string, t: string)
    requires SameUpToCase(s, t)
    ensures IsUuid(s) <==> IsUuid(t)
  {
    AcceptsIffCanonical(s);
    AcceptsIffCanonical(t);
    if IsCanonicalUuid(s) {
      forall i | 0 <= i < |t|
        ensures if IsHyphenIndex(i) then t[i] == '-' else IsHexDigit(t[i])
      {
        FlipCaseTwice(s[i]);
        assert s[i] == t[i] || s[i] == FlipCase(t[i]);
      }
    }
    if IsCanonicalUuid(t) {
      forall i | 0 <= i < |s|
        ensures if IsHyphenIndex(i) then s[i] == '-' else IsHexDigit(s[i])
      {
        assert t[i] == s[i] || t[i] == FlipCase(s[i]);
      }
    }
  }

  /** Switching the case of one character keeps acceptance as it was. */
  lemma FlipOneKeepsAcceptance(s: string, i: nat)
    requires i < |s|
    ensures IsUuid(s[i := FlipCase(s[i])]) <==> IsUuid(s)
  {
    CaseInsensitive(s, s[i := FlipCase(s[i])]);
  }

  /** A mixed-case UUID is accepted; the same text in braces is not. */
  lemma Examples()
    ensures IsUuid("123e4567-E89B-12d3-a456-426614174000")
    ensures !IsUuid("{123e4567-e89b-12d3-a456-426614174000}")
  {
    AcceptsIffCanonical("123e4567-E89B-12d3-a456-426614174000");
    AcceptsIffCanonical("{123e4567-e89b-12d3-a456-426614174000}");
  }
}

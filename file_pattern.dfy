/**
 * The archive-name validator: the anchored, case-insensitive regular
 * expression `^EventInc_\d{4}-\d{2}-\d{2}\.uat\.zip$` that the listing
 * applies to every directory entry.
 *
 * The expression is modelled as a sequence of single-character atoms (it has
 * no alternation and its only repetitions have a fixed count), matched from
 * the first character to the last. Case folding and digits are ASCII.
 */
module FilePattern {

  /** One position of a fixed-length pattern: a literal character or `\d`. */
  datatype Atom = Lit(c: char) | AnyDigit

  /** ASCII lower-casing: what IGNORECASE compares. */
  function Lower(c: char): char
  {
    if 'A' <= c <= 'Z' then (c as int + 32) as char else c
  }

  predicate IsDigit(c: char)
  {
    '0' <= c <= '9'
  }

  predicate AtomMatches(a: Atom, c: char)
  {
    match a
    case Lit(l) => Lower(c) == Lower(l)
    case AnyDigit => IsDigit(c)
  }

  /** The atoms of an escaped literal string. */
  function Literal(s: string): (p: seq<Atom>)
    ensures |p| == |s|
  {
    seq(|s|, i requires 0 <= i < |s| => Lit(s[i]))
  }

  /** `\d{n}` */
  function Digits(n: nat): (p: seq<Atom>)
    ensures |p| == n
  {
    seq(n, _ => AnyDigit)
  }

  /** `^EventInc_\d{4}-\d{2}-\d{2}\.uat\.zip$` */
  const EventIncPattern: seq<Atom> :=
    Literal("EventInc_") + Digits(4) + Literal("-") + Digits(2) + Literal("-") + Digits(2) + Literal(".uat.zip")

  /** Anchored match: the pattern consumes the whole name, no more and no less. */
  predicate FullMatch(p: seq<Atom>, s: string)
  {
    if p == [] then s == []
    else s != [] && AtomMatches(p[0], s[0]) && FullMatch(p[1..], s[1..])
  }

  /** The validator the listing applies to each entry name: it admits exactly the names the reference describes. */
  predicate IsEventIncName(name: string)
    ensures IsEventIncName(name) <==> IsArchiveName(name)
  {
    ValidatorMatchesReference(name);
    FullMatch(EventIncPattern, name)
  }

  // ---------------------------------------------------------------------------
  // Reference description of an archive name

  predicate SameIgnoringCase(a: string, b: string)
  {
    |a| == |b| && forall i :: 0 <= i < |a| ==> Lower(a[i]) == Lower(b[i])
  }

  predicate AllDigits(s: string)
  {
    forall i :: 0 <= i < |s| ==> IsDigit(s[i])
  }

  /**
   * `EventInc_` (any ASCII case), four digits, `-`, two digits, `-`, two
   * digits, `.uat.zip` (any ASCII case), and nothing else.
   */
  predicate IsArchiveName(s: string)
  {
    && |s| == 27
    && SameIgnoringCase(s[..9], "EventInc_")
    && AllDigits(s[9..13]) && s[13] == '-'
    && AllDigits(s[14..16]) && s[16] == '-'
    && AllDigits(s[17..19])
    && SameIgnoringCase(s[19..], ".uat.zip")
  }

  // ---------------------------------------------------------------------------
  // Properties

  /** An anchored match holds exactly when lengths agree and every position matches its atom. */
  lemma {:induction false} FullMatchPointwise(p: seq<Atom>, s: string)
    ensures FullMatch(p, s) <==> |p| == |s| && forall i :: 0 <= i < |p| ==> AtomMatches(p[i], s[i])
  {
    if p != [] && s != [] {
      FullMatchPointwise(p[1..], s[1..]);
      if |p| == |s| && forall i :: 0 <= i < |p| ==> AtomMatches(p[i], s[i]) {
        assert AtomMatches(p[0], s[0]);
        forall i | 0 <= i < |p| - 1 ensures AtomMatches(p[1..][i], s[1..][i]) {
          assert AtomMatches(p[i + 1], s[i + 1]);
        }
      }
      if FullMatch(p, s) {
        forall i | 0 <= i < |p| ensures AtomMatches(p[i], s[i]) {
          if i > 0 { assert AtomMatches(p[1..][i - 1], s[1..][i - 1]); }
        }
      }
    }
  }

  lemma PatternLayout()
    ensures |EventIncPattern| == 27
    ensures forall i :: 0 <= i < 9 ==> EventIncPattern[i] == Lit("EventInc_"[i])
    ensures forall i :: 9 <= i < 13 || 14 <= i < 16 || 17 <= i < 19 ==> EventIncPattern[i] == AnyDigit
    ensures EventIncPattern[13] == Lit('-') && EventIncPattern[16] == Lit('-')
    ensures forall i :: 19 <= i < 27 ==> EventIncPattern[i] == Lit(".uat.zip"[i - 19])
  {
  }

  /** The anchored pattern accepts exactly the names the reference description admits. */
  lemma ValidatorMatchesReference(s: string)
    ensures FullMatch(EventIncPattern, s) <==> IsArchiveName(s)
  {
    FullMatchPointwise(EventIncPattern, s);
    PatternLayout();
    var P := EventIncPattern;
    if FullMatch(P, s) {
      forall i | 0 <= i < 9 ensures Lower(s[..9][i]) == Lower("EventInc_"[i]) {
        assert AtomMatches(P[i], s[i]);
      }
      forall i | 0 <= i < 8 ensures Lower(s[19..][i]) == Lower(".uat.zip"[i]) {
        assert AtomMatches(P[19 + i], s[19 + i]);
      }
      forall i | 9 <= i < 13 || 14 <= i < 16 || 17 <= i < 19 ensures IsDigit(s[i]) {
        assert AtomMatches(P[i], s[i]);
      }
      assert AtomMatches(P[13], s[13]) && AtomMatches(P[16], s[16]);
      assert AllDigits(s[9..13]) && AllDigits(s[14..16]) && AllDigits(s[17..19]);
    }
    if IsArchiveName(s) {
      forall i | 0 <= i < 27 ensures AtomMatches(P[i], s[i]) {
        if i < 9 {
          assert Lower(s[..9][i]) == Lower("EventInc_"[i]);
        } else if 19 <= i {
          assert Lower(s[19..][i - 19]) == Lower(".uat.zip"[i - 19]);
        } else if i < 13 {
          assert IsDigit(s[9..13][i - 9]);
        } else if 14 <= i < 16 {
          assert IsDigit(s[14..16][i - 14]);
        } else if 17 <= i < 19 {
          assert IsDigit(s[17..19][i - 17]);
        }
      }
    }
  }

  /** Every accepted name is exactly 27 characters long. */
  lemma AcceptedLength(s: string)
    requires IsEventIncName(s)
    ensures |s| == 27
  {
  }

  /** The pattern is anchored at both ends: extra characters before or after an accepted name are rejected. */
  lemma Anchored(s: string, extra: string)
    requires IsEventIncName(s) && extra != []
    ensures !IsEventIncName(extra + s) && !IsEventIncName(s + extra)
  {
    AcceptedLength(s);
    if IsEventIncName(extra + s) { AcceptedLength(extra + s); }
    if IsEventIncName(s + extra) { AcceptedLength(s + extra); }
  }

  /** The success marker of an archive is never itself taken for an archive. */
  lemma MarkerNameRejected(s: string)
    requires IsEventIncName(s)
    ensures !IsEventIncName(s + ".success")
  {
    Anchored(s, ".success");
  }

  /** Letters are compared without regard to case. */
  lemma CaseInsensitive(s: string, t: string)
    requires SameIgnoringCase(s, t)
    ensures IsEventIncName(s) <==> IsEventIncName(t)
  {
    FullMatchPointwise(EventIncPattern, s);
    FullMatchPointwise(EventIncPattern, t);
    assert IsEventIncName(s) <==> FullMatch(EventIncPattern, s);
    forall i | 0 <= i < |s| && i < |EventIncPattern|
      ensures AtomMatches(EventIncPattern[i], s[i]) <==> AtomMatches(EventIncPattern[i], t[i])
    {
      assert Lower(s[i]) == Lower(t[i]);
    }
  }

  /** Every name built from the prefix, three digit groups and the suffix is accepted. */
  lemma AcceptsEveryDate(year: string, month: string, day: string)
    requires |year| == 4 && |month| == 2 && |day| == 2
    requires AllDigits(year) && AllDigits(month) && AllDigits(day)
    ensures IsEventIncName("EventInc_" + year + "-" + month + "-" + day + ".uat.zip")
  {
    var s := "EventInc_" + year + "-" + month + "-" + day + ".uat.zip";
    assert s[..9] == "EventInc_";
    assert s[9..13] == year && s[13] == '-' && s[14..16] == month && s[16] == '-' && s[17..19] == day;
    assert s[19..] == ".uat.zip";
    ValidatorMatchesReference(s);
  }

  /** A one-digit month group is rejected (`\d{2}` is exact). */
  lemma RejectsShortMonth(year: string, month: string, day: string)
    requires |year| == 4 && |month| == 1 && |day| == 2
    ensures !IsEventIncName("EventInc_" + year + "-" + month + "-" + day + ".uat.zip")
  {
  }

  /** A name with `_` where the escaped dot of `.uat.zip` belongs is rejected. */
  lemma RejectsWrongSeparator(s: string)
    requires |s| == 27 && s[19] == '_'
    ensures !IsEventIncName(s)
  {
    assert s[19..][0] == '_';
  }
}

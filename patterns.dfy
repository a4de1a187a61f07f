/** The two regular expressions the form's validator tests: the anchored
    national-ID (CNIC) pattern `^\d{5}-\d{7}-\d{1}$` and the unanchored
    e-mail pattern `\S+@\S+\.\S+`. Each has an executable matcher and an
    index-based description of the strings it accepts, proved equivalent. */
module Patterns {
  import opened Text

  // ---------------------------------------------------------------------
  // CNIC: an anchored pattern of single-character atoms
  // ---------------------------------------------------------------------

  /** One position of a pattern built from `\d` and literal characters. */
  datatype Atom = Digit | Literal(c: char)

  predicate Accepts(a: Atom, c: char) {
    match a
    case Digit => IsDigit(c)
    case Literal(x) => c == x
  }

  /** `a{n}`: the atom written out `n` times. */
  function Repeat(a: Atom, n: nat): (r: seq<Atom>)
    ensures |r| == n
    ensures forall i :: 0 <= i < n ==> r[i] == a
    decreases n
  {
    if n == 0 then [] else [a] + Repeat(a, n - 1)
  }

  /** `\d{5}-\d{7}-\d{1}` as a sequence of atoms. */
  function CnicPattern(): (p: seq<Atom>)
    ensures |p| == 15
  {
    Repeat(Digit, 5) + [Literal('-')] + Repeat(Digit, 7) + [Literal('-')] + Repeat(Digit, 1)
  }

  /** A match anchored at both ends (`^` … `$`, no multiline flag): the
      atoms consume the string one character each, and nothing is left. */
  predicate MatchesAnchored(s: string, p: seq<Atom>)
    decreases |p|
  {
    if p == [] then s == []
    else s != [] && Accepts(p[0], s[0]) && MatchesAnchored(s[1..], p[1..])
  }

  lemma {:induction false} MatchesAnchoredIff(s: string, p: seq<Atom>)
    ensures MatchesAnchored(s, p) <==> |s| == |p| && forall i :: 0 <= i < |s| ==> Accepts(p[i], s[i])
    decreases |p|
  {
    if p != [] && s != [] {
      MatchesAnchoredIff(s[1..], p[1..]);
      if |s| == |p| && forall i :: 0 <= i < |s| ==> Accepts(p[i], s[i]) {
        forall i | 0 <= i < |s[1..]| ensures Accepts(p[1..][i], s[1..][i]) {
          assert p[1..][i] == p[i + 1] && s[1..][i] == s[i + 1];
        }
      }
      if MatchesAnchored(s, p) {
        forall i | 0 <= i < |s| ensures Accepts(p[i], s[i]) {
          if i > 0 {
            assert p[1..][i - 1] == p[i] && s[1..][i - 1] == s[i];
          }
        }
      }
    }
  }

  /** `/^\d{5}-\d{7}-\d{1}$/.test(s)`. */
  predicate IsCnic(s: string) {
    MatchesAnchored(s, CnicPattern())
  }

  /** The strings the CNIC pattern accepts, position by position: fifteen
      characters, digits at 0-4, '-' at 5, digits at 6-12, '-' at 13 and a
      digit at 14. */
  predicate CnicShape(s: string) {
    && |s| == 15
    && (forall i :: 0 <= i < 5 ==> IsDigit(s[i]))
    && s[5] == '-'
    && (forall i :: 6 <= i < 13 ==> IsDigit(s[i]))
    && s[13] == '-'
    && IsDigit(s[14])
  }

  /** Where each atom of the CNIC pattern stands. */
  lemma CnicPatternAt(i: nat)
    requires i < 15
    ensures CnicPattern()[i] == if i == 5 || i == 13 then Literal('-') else Digit
  {
    var p := CnicPattern();
    var a, b, c := Repeat(Digit, 5), Repeat(Digit, 7), Repeat(Digit, 1);
    assert p == a + [Literal('-')] + b + [Literal('-')] + c;
    if i < 5 {
      assert p[i] == a[i];
    } else if i == 5 {
    } else if i < 13 {
      assert p[i] == b[i - 6];
    } else if i == 13 {
    } else {
      assert p[i] == c[0];
    }
  }

  /** What position `i` of the CNIC pattern asks of its character. */
  predicate CnicCharAt(i: int, c: char) {
    if i == 5 || i == 13 then c == '-' else IsDigit(c)
  }

  lemma CnicShapeByPosition(s: string)
    ensures CnicShape(s) <==> |s| == 15 && forall i :: 0 <= i < 15 ==> CnicCharAt(i, s[i])
  {
    if |s| == 15 && forall i :: 0 <= i < 15 ==> CnicCharAt(i, s[i]) {
      assert CnicCharAt(5, s[5]) && CnicCharAt(13, s[13]) && CnicCharAt(14, s[14]);
      assert forall i :: 0 <= i < 5 ==> CnicCharAt(i, s[i]);
      assert forall i :: 6 <= i < 13 ==> CnicCharAt(i, s[i]);
    }
  }

  lemma IsCnicIff(s: string)
    ensures IsCnic(s) <==> CnicShape(s)
  {
    var p := CnicPattern();
    MatchesAnchoredIff(s, p);
    CnicShapeByPosition(s);
    if |s| == 15 {
      forall i | 0 <= i < 15 ensures Accepts(p[i], s[i]) <==> CnicCharAt(i, s[i]) {
        CnicPatternAt(i);
      }
    }
  }

  // ---------------------------------------------------------------------
  // E-mail: an unanchored search for `\S+@\S+\.\S+`
  // ---------------------------------------------------------------------

  /** `s[lo..hi]` lies within `s` and holds no whitespace. */
  predicate NonSpace(s: string, lo: int, hi: int) {
    0 <= lo <= hi <= |s| && forall k :: lo <= k < hi ==> !IsSpace(s[k])
  }

  /** The `.` of `\.\S+` is at `dot`, after at least one character that
      follows position `lo - 1`, with a non-space character after it. */
  predicate DomainEnd(s: string, lo: int, dot: int) {
    0 <= lo < dot && dot + 1 < |s| && s[dot] == '.' && !IsSpace(s[dot + 1])
  }

  /** `\S+@\S+\.\S+` matches somewhere in `s` with its `@` at `at` and its
      `.` at `dot`. One non-space character before the `@` and one after the
      `.` suffice, as the outer `\S+` may match a single character. */
  predicate EmailMatchAt(s: string, at: int, dot: int) {
    && 0 < at < |s|
    && !IsSpace(s[at - 1])
    && s[at] == '@'
    && DomainEnd(s, at + 1, dot)
    && NonSpace(s, at + 1, dot)
  }

  /** The strings the e-mail pattern accepts. */
  ghost predicate EmailShape(s: string) {
    exists at, dot :: EmailMatchAt(s, at, dot)
  }

  /** Scans right from `j` over non-space characters for a `.` that ends the
      middle `\S+` begun at `lo` and is followed by a non-space character. */
  predicate DomainFrom(s: string, lo: nat, j: nat)
    requires lo <= j <= |s|
    decreases |s| - j
  {
    if j == |s| || IsSpace(s[j]) then false
    else if lo < j && s[j] == '.' && j + 1 < |s| && !IsSpace(s[j + 1]) then true
    else DomainFrom(s, lo, j + 1)
  }

  /** Tries each position from `i` on as the `@` of a match. */
  predicate EmailFrom(s: string, i: nat)
    requires i <= |s|
    decreases |s| - i
  {
    if i == |s| then false
    else if 0 < i && s[i] == '@' && !IsSpace(s[i - 1]) && DomainFrom(s, i + 1, i + 1) then true
    else EmailFrom(s, i + 1)
  }

  /** `/\S+@\S+\.\S+/.test(s)`. */
  predicate IsEmail(s: string) {
    EmailFrom(s, 0)
  }

  lemma {:induction false} DomainFromIff(s: string, lo: nat, j: nat)
    requires lo <= j <= |s|
    ensures DomainFrom(s, lo, j) <==> exists dot :: j <= dot && DomainEnd(s, lo, dot) && NonSpace(s, j, dot)
    decreases |s| - j
  {
    if j == |s| {
    } else if IsSpace(s[j]) {
      forall dot | j <= dot && DomainEnd(s, lo, dot) ensures !NonSpace(s, j, dot) {
        assert dot != j;
      }
    } else if lo < j && s[j] == '.' && j + 1 < |s| && !IsSpace(s[j + 1]) {
      assert DomainEnd(s, lo, j) && NonSpace(s, j, j);
    } else {
      DomainFromIff(s, lo, j + 1);
      if DomainFrom(s, lo, j) {
        var dot :| j + 1 <= dot && DomainEnd(s, lo, dot) && NonSpace(s, j + 1, dot);
        assert NonSpace(s, j, dot);
      }
      if exists dot :: j <= dot && DomainEnd(s, lo, dot) && NonSpace(s, j, dot) {
        var dot :| j <= dot && DomainEnd(s, lo, dot) && NonSpace(s, j, dot);
        assert dot != j;
        assert NonSpace(s, j + 1, dot);
      }
    }
  }

  lemma {:induction false} EmailFromIff(s: string, i: nat)
    requires i <= |s|
    ensures EmailFrom(s, i) <==> exists at, dot :: i <= at && EmailMatchAt(s, at, dot)
    decreases |s| - i
  {
    if i < |s| {
      EmailFromIff(s, i + 1);
      if 0 < i && s[i] == '@' && !IsSpace(s[i - 1]) {
        DomainFromIff(s, i + 1, i + 1);
        if DomainFrom(s, i + 1, i + 1) {
          var dot :| i + 1 <= dot && DomainEnd(s, i + 1, dot) && NonSpace(s, i + 1, dot);
          assert EmailMatchAt(s, i, dot);
        }
      }
      if exists at, dot :: i <= at && EmailMatchAt(s, at, dot) {
        var at, dot :| i <= at && EmailMatchAt(s, at, dot);
        if at == i {
          DomainFromIff(s, i + 1, i + 1);
        } else {
          assert i + 1 <= at;
        }
      }
    }
  }

  lemma IsEmailIff(s: string)
    ensures IsEmail(s) <==> EmailShape(s)
  {
    EmailFromIff(s, 0);
  }

  // ---------------------------------------------------------------------
  // Examples
  // ---------------------------------------------------------------------

  lemma CnicExamples()
    ensures IsCnic("12345-1234567-1")
    ensures !IsCnic("1234-123-1")
  {
    IsCnicIff("12345-1234567-1");
    IsCnicIff("1234-123-1");
  }

  lemma EmailExamples()
    ensures IsEmail("a@b.com")
    ensures !IsEmail("abc")
  {
    var good := "a@b.com";
    IsEmailIff(good);
    assert NonSpace(good, 2, 3);
    assert EmailMatchAt(good, 1, 3);
    IsEmailIff("abc");
  }
}

/**
 * The regular expressions the installer applies to SteamCMD's text. Each is a
 * sequence of literals, `\s*`/`\s+` and `\d+` (optionally captured), and in each a
 * repetition is followed by something its class cannot start, so Python's
 * backtracking engine has exactly one way to match at a given position: every
 * repetition takes as much as it can. `MatchAt` computes that greedy match;
 * `Matches` is the declarative meaning of the pattern (some way to split the text
 * among the tokens); `MatchAtIsMatches` proves they agree, and `SearchFirst` is
 * `re.search`: the match that starts leftmost.
 */
module Pattern {
  import opened Wrappers
  import opened Text

  datatype Token =
    | Lit(text: string)          // literal characters, such as `"buildid"` or `\(`
    | Spaces(atLeastOne: bool)   // `\s+` when atLeastOne, `\s*` otherwise
    | Digits(captured: bool)     // `\d+`, or the group `(\d+)` when captured

  /** Where a match ends and what its groups captured, in order. */
  datatype Match = Match(end: nat, groups: seq<string>)

  /** A match found by a search, with the position it starts at. */
  datatype Found = Found(start: nat, m: Match)

  /** A token that cannot start with a whitespace character. */
  predicate StopsSpaces(t: Token) {
    match t
    case Lit(l) => |l| > 0 && !IsSpace(l[0])
    case Spaces(_) => false
    case Digits(_) => true
  }

  /** A token that cannot start with a digit. */
  predicate StopsDigits(t: Token) {
    match t
    case Lit(l) => |l| > 0 && !IsDigit(l[0])
    case Spaces(plus) => plus
    case Digits(_) => false
  }

  /** Literals are non-empty and every repetition is followed by a token that stops it. */
  predicate Unambiguous(pat: seq<Token>)
    decreases |pat|
  {
    pat == [] ||
    (&& (match pat[0]
         case Lit(l) => |l| > 0
         case Spaces(_) => |pat| > 1 && StopsSpaces(pat[1])
         case Digits(_) => |pat| > 1 && StopsDigits(pat[1]))
     && Unambiguous(pat[1..]))
  }

  /** Two unambiguous patterns, the first ending in a literal, join into one. */
  lemma {:induction false} UnambiguousAppend(a: seq<Token>, b: seq<Token>)
    requires Unambiguous(a) && Unambiguous(b)
    requires a == [] || a[|a| - 1].Lit?
    ensures Unambiguous(a + b)
    ensures GroupCount(a + b) == GroupCount(a) + GroupCount(b)
    decreases |a|
  {
    if a == [] {
      assert a + b == b;
    } else {
      assert (a + b)[1..] == a[1..] + b;
      UnambiguousAppend(a[1..], b);
    }
  }

  /** The number of capture groups. */
  function GroupCount(pat: seq<Token>): nat
    decreases |pat|
  {
    if pat == [] then 0
    else (if pat[0] == Digits(true) then 1 else 0) + GroupCount(pat[1..])
  }

  /** The match of `pat` starting exactly at position i, each repetition taken greedily. */
  function MatchAt(s: string, i: nat, pat: seq<Token>): (r: Option<Match>)
    ensures r.Some? ==> i <= r.value.end <= |s|
    ensures r.Some? ==> |r.value.groups| == GroupCount(pat)
    ensures r.Some? ==> forall g :: g in r.value.groups ==> IsNumeral(g)
    decreases |pat|
  {
    if i > |s| then None
    else if pat == [] then Some(Match(i, []))
    else match pat[0]
      case Lit(l) =>
        if HasAt(s, i, l) then MatchAt(s, i + |l|, pat[1..]) else None
      case Spaces(plus) =>
        var k := i + RunLength(s, i, Space);
        if plus && k == i then None else MatchAt(s, k, pat[1..])
      case Digits(cap) =>
        var k := i + RunLength(s, i, Digit);
        if k == i then None
        else match MatchAt(s, k, pat[1..])
          case None => None
          case Some(rest) =>
            assert IsNumeral(s[i..k]) by {
              assert forall t :: 0 <= t < k - i ==> s[i..k][t] == s[i + t];
            }
            Some(Match(rest.end, if cap then [s[i..k]] + rest.groups else rest.groups))
  }

  /** `pat` matches s from i to m.end, capturing m.groups, for SOME choice of how far
      each repetition extends: the meaning of the regular expression. */
  ghost predicate Matches(s: string, i: nat, pat: seq<Token>, m: Match)
    decreases |pat|
  {
    && i <= |s|
    && if pat == [] then m == Match(i, [])
       else match pat[0]
         case Lit(l) => HasAt(s, i, l) && Matches(s, i + |l|, pat[1..], m)
         case Spaces(plus) =>
           exists k: nat :: && i <= k <= |s| && (plus ==> i < k) && AllIn(s, i, k, Space)
                            && Matches(s, k, pat[1..], m)
         case Digits(cap) =>
           exists k: nat, rest: Match ::
             && i < k <= |s| && AllIn(s, i, k, Digit)
             && Matches(s, k, pat[1..], rest)
             && m == Match(rest.end, if cap then [s[i..k]] + rest.groups else rest.groups)
  }

  lemma {:induction false} MatchAtSound(s: string, i: nat, pat: seq<Token>)
    requires MatchAt(s, i, pat).Some?
    ensures Matches(s, i, pat, MatchAt(s, i, pat).value)
    decreases |pat|
  {
    if pat != [] {
      match pat[0]
      case Lit(l) =>
        MatchAtSound(s, i + |l|, pat[1..]);
      case Spaces(plus) =>
        var k := i + RunLength(s, i, Space);
        MatchAtSound(s, k, pat[1..]);
      case Digits(cap) =>
        var k := i + RunLength(s, i, Digit);
        MatchAtSound(s, k, pat[1..]);
    }
  }

  /** What the first character of a match must be, when the pattern stops spaces. */
  lemma MatchesStopsSpaces(s: string, i: nat, pat: seq<Token>, m: Match)
    requires pat != [] && StopsSpaces(pat[0]) && Matches(s, i, pat, m)
    ensures i < |s| && !IsSpace(s[i])
  {
    match pat[0]
    case Lit(l) =>
      assert s[i] == s[i..i + |l|][0];
    case Digits(_) =>
      var k: nat, rest: Match :| i < k <= |s| && AllIn(s, i, k, Digit) && Matches(s, k, pat[1..], rest);
      assert IsDigit(s[i]);
  }

  /** What the first character of a match must be, when the pattern stops digits. */
  lemma MatchesStopsDigits(s: string, i: nat, pat: seq<Token>, m: Match)
    requires pat != [] && StopsDigits(pat[0]) && Matches(s, i, pat, m)
    ensures i < |s| && !IsDigit(s[i])
  {
    match pat[0]
    case Lit(l) =>
      assert s[i] == s[i..i + |l|][0];
    case Spaces(_) =>
      var k: nat :| i < k <= |s| && AllIn(s, i, k, Space) && Matches(s, k, pat[1..], m);
      assert IsSpace(s[i]);
  }

  lemma {:induction false} MatchAtComplete(s: string, i: nat, pat: seq<Token>, m: Match)
    requires Unambiguous(pat) && Matches(s, i, pat, m)
    ensures MatchAt(s, i, pat) == Some(m)
    decreases |pat|
  {
    if pat != [] {
      match pat[0]
      case Lit(l) =>
        MatchAtComplete(s, i + |l|, pat[1..], m);
      case Spaces(plus) =>
        var k: nat :| && i <= k <= |s| && (plus ==> i < k) && AllIn(s, i, k, Space)
                      && Matches(s, k, pat[1..], m);
        MatchesStopsSpaces(s, k, pat[1..], m);
        RunLengthUnique(s, i, k, Space);
        MatchAtComplete(s, k, pat[1..], m);
      case Digits(cap) =>
        var k: nat, rest: Match :|
          && i < k <= |s| && AllIn(s, i, k, Digit)
          && Matches(s, k, pat[1..], rest)
          && m == Match(rest.end, if cap then [s[i..k]] + rest.groups else rest.groups);
        MatchesStopsDigits(s, k, pat[1..], rest);
        RunLengthUnique(s, i, k, Digit);
        MatchAtComplete(s, k, pat[1..], rest);
    }
  }

  /** For an unambiguous pattern the greedy match is the match, and it is the only one. */
  lemma MatchAtIsMatches(s: string, i: nat, pat: seq<Token>, m: Match)
    requires Unambiguous(pat)
    ensures MatchAt(s, i, pat) == Some(m) <==> Matches(s, i, pat, m)
  {
    if MatchAt(s, i, pat) == Some(m) {
      MatchAtSound(s, i, pat);
    }
    if Matches(s, i, pat, m) {
      MatchAtComplete(s, i, pat, m);
    }
  }

  /** The first position at or after `from` where `pat` matches. */
  function SearchFrom(s: string, pat: seq<Token>, from: nat): (r: Option<Found>)
    ensures r.Some? ==> from <= r.value.start <= |s| && MatchAt(s, r.value.start, pat) == Some(r.value.m)
    ensures r.Some? ==> forall k :: from <= k < r.value.start ==> MatchAt(s, k, pat).None?
    ensures r.None? ==> forall k :: from <= k <= |s| ==> MatchAt(s, k, pat).None?
    decreases |s| + 1 - from
  {
    if from > |s| then None
    else match MatchAt(s, from, pat)
      case Some(m) => Some(Found(from, m))
      case None => SearchFrom(s, pat, from + 1)
  }

  /** Python's `re.search(pat, s)`. */
  function Search(s: string, pat: seq<Token>): Option<Found>
  {
    SearchFrom(s, pat, 0)
  }

  /** `re.search` returns the leftmost position where the pattern matches, with that match;
      it finds nothing exactly when the pattern matches nowhere. */
  lemma SearchFirst(s: string, pat: seq<Token>, i: nat, m: Match)
    requires Unambiguous(pat)
    ensures Search(s, pat) == Some(Found(i, m)) <==>
              Matches(s, i, pat, m) && forall k: nat, m': Match :: k < i ==> !Matches(s, k, pat, m')
    ensures Search(s, pat).None? <==> forall k: nat, m': Match :: !Matches(s, k, pat, m')
  {
    forall k: nat, m': Match | Matches(s, k, pat, m') ensures MatchAt(s, k, pat) == Some(m') {
      MatchAtIsMatches(s, k, pat, m');
    }
    if Search(s, pat) == Some(Found(i, m)) {
      MatchAtIsMatches(s, i, pat, m);
    }
    if Search(s, pat).Some? {
      var f := Search(s, pat).value;
      MatchAtIsMatches(s, f.start, pat, f.m);
    }
  }

  /** Some token of `pat` can consume the character c. */
  predicate Admits(pat: seq<Token>, c: char)
    decreases |pat|
  {
    pat != [] &&
    ((match pat[0]
      case Lit(l) => c in l
      case Spaces(_) => IsSpace(c)
      case Digits(_) => IsDigit(c))
     || Admits(pat[1..], c))
  }

  /** A match consists only of characters its tokens admit. */
  lemma {:induction false} MatchAvoids(s: string, i: nat, pat: seq<Token>, c: char)
    requires MatchAt(s, i, pat).Some? && !Admits(pat, c)
    ensures forall t :: i <= t < MatchAt(s, i, pat).value.end ==> s[t] != c
    decreases |pat|
  {
    if pat != [] {
      var k := match pat[0]
        case Lit(l) => i + |l|
        case Spaces(_) => i + RunLength(s, i, Space)
        case Digits(_) => i + RunLength(s, i, Digit);
      assert MatchAt(s, k, pat[1..]).Some? && MatchAt(s, k, pat[1..]).value.end == MatchAt(s, i, pat).value.end;
      MatchAvoids(s, k, pat[1..], c);
      forall t | i <= t < k ensures s[t] != c {
        match pat[0]
        case Lit(l) =>
          assert s[t] == s[i..i + |l|][t - i];
        case Spaces(_) =>
          assert InClass(s[t], Space);
        case Digits(_) =>
          assert InClass(s[t], Digit);
      }
    }
  }

  /** A match of a pattern that ends with a literal ends with that literal's last character. */
  lemma {:induction false} MatchEndsWith(s: string, i: nat, pat: seq<Token>, l: string)
    requires MatchAt(s, i, pat).Some? && pat != [] && pat[|pat| - 1] == Lit(l) && l != []
    ensures MatchAt(s, i, pat).value.end >= i + 1
    ensures s[MatchAt(s, i, pat).value.end - 1] == l[|l| - 1]
    decreases |pat|
  {
    var r := MatchAt(s, i, pat).value;
    if |pat| == 1 {
      assert HasAt(s, i, l) && r.end == i + |l|;
      assert s[i + |l| - 1] == s[i..i + |l|][|l| - 1];
    } else {
      assert pat[1..][|pat[1..]| - 1] == Lit(l);
      var k := match pat[0]
        case Lit(l0) => i + |l0|
        case Spaces(_) => i + RunLength(s, i, Space)
        case Digits(_) => i + RunLength(s, i, Digit);
      assert MatchAt(s, k, pat[1..]).Some? && MatchAt(s, k, pat[1..]).value.end == r.end;
      MatchEndsWith(s, k, pat[1..], l);
    }
  }
}

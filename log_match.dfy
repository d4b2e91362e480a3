/**
 * The pure part of the log searcher: deciding whether a search key has the
 * shape of a date, deciding whether a file name matches the search regex
 * `.*KEY.*\.log$` when KEY holds no regex metacharacter, and keeping the
 * matching entries of a directory listing in enumeration order.
 */
module LogMatch {

  /** The suffix every log file name carries; the directory glob `*.log` selects exactly these names. */
  const LogSuffix: string := ".log"

  // ---------------------------------------------------------------------------
  // The date shape \d{4}-\d{2}-\d{2}

  /** `\d` without the UNICODE_CHARACTER_CLASS flag: an ASCII digit. */
  predicate IsAsciiDigit(c: char) {
    '0' <= c <= '9'
  }

  datatype DateToken = Digit | Dash

  predicate Accepts(t: DateToken, c: char) {
    match t
    case Digit => IsAsciiDigit(c)
    case Dash => c == '-'
  }

  /** `\d{4}-\d{2}-\d{2}` written out one character class per position. */
  const DateShape: seq<DateToken> := [Digit, Digit, Digit, Digit, Dash, Digit, Digit, Dash, Digit, Digit]

  /** Whole-string match of `s` against a fixed-width shape, as String.matches demands. */
  predicate Fits(s: string, shape: seq<DateToken>)
    decreases shape
  {
    if shape == [] then s == []
    else s != [] && Accepts(shape[0], s[0]) && Fits(s[1..], shape[1..])
  }

  lemma {:induction false} FitsPointwise(s: string, shape: seq<DateToken>)
    ensures Fits(s, shape) <==> |s| == |shape| && forall i :: 0 <= i < |s| ==> Accepts(shape[i], s[i])
    decreases shape
  {
    if shape != [] && s != [] {
      FitsPointwise(s[1..], shape[1..]);
      if |s| == |shape| && (forall i :: 0 <= i < |s| ==> Accepts(shape[i], s[i])) {
        forall i | 0 <= i < |s[1..]| ensures Accepts(shape[1..][i], s[1..][i]) {
          assert Accepts(shape[i + 1], s[i + 1]);
        }
      }
      if Fits(s, shape) {
        forall i | 0 <= i < |s| ensures Accepts(shape[i], s[i]) {
          if i > 0 {
            assert Accepts(shape[1..][i - 1], s[1..][i - 1]);
          }
        }
      }
    }
  }

  /**
   * The test `run` makes before dispatching: a key is a date exactly when it
   * has ten characters, digits at positions 0-3, 5-6 and 8-9 and a dash at 4 and 7.
   */
  function IsDateShaped(key: string): (date: bool)
    ensures date <==>
      && |key| == 10 && key[4] == '-' && key[7] == '-'
      && forall i :: 0 <= i < 10 && i != 4 && i != 7 ==> IsAsciiDigit(key[i])
  {
    FitsPointwise(key, DateShape);
    Fits(key, DateShape)
  }

  // ---------------------------------------------------------------------------
  // The search regex .*KEY.*\.log$ for a literal KEY

  /** Characters that carry a meaning in a Java regex outside a character class. */
  predicate IsRegexMeta(c: char) {
    c in "\\^$.|?*+()[]{}"
  }

  /** A key that the search regex takes character for character. */
  predicate IsLiteralKey(key: string) {
    forall i :: 0 <= i < |key| ==> !IsRegexMeta(key[i])
  }

  lemma DateKeysAreLiteral(key: string)
    requires IsDateShaped(key)
    ensures IsLiteralKey(key)
  {
  }

  /** The regex both search methods compile. */
  function SearchRegex(key: string): string
  {
    ".*" + key + ".*\\.log$"
  }

  /** The characters `.` refuses to match in Java when DOTALL is off. */
  predicate IsLineTerminator(c: char) {
    c == '\n' || c == '\r' || c == '\U{0085}' || c == '\U{2028}' || c == '\U{2029}'
  }

  /** What `.*` can consume. */
  predicate FreeOfTerminators(s: string) {
    forall i :: 0 <= i < |s| ==> !IsLineTerminator(s[i])
  }

  /** Reference meaning of a whole-string match of `.*KEY.*\.log` for a literal KEY. */
  ghost predicate InSearchLanguage(key: string, name: string) {
    exists p: string, q: string ::
      FreeOfTerminators(p) && FreeOfTerminators(q) && name == p + key + q + LogSuffix
  }

  predicate HasLogSuffix(name: string) {
    |name| >= |LogSuffix| && name[|name| - |LogSuffix|..] == LogSuffix
  }

  /** The part of a log file name before its final `.log`. */
  function Stem(name: string): string
    requires HasLogSuffix(name)
  {
    name[..|name| - |LogSuffix|]
  }

  /** `key` sits in `stem` at position `j`, with only `.*`-matchable text around it. */
  predicate OccursAt(key: string, stem: string, j: int) {
    && 0 <= j && j + |key| <= |stem|
    && stem[j..j + |key|] == key
    && FreeOfTerminators(stem[..j])
    && FreeOfTerminators(stem[j + |key|..])
  }

  /** Try every start position from `i` on, as the backtracking matcher does. */
  predicate OccursFrom(key: string, stem: string, i: nat)
    requires i <= |stem|
    decreases |stem| - i
  {
    i + |key| <= |stem| && (OccursAt(key, stem, i) || (i < |stem| && OccursFrom(key, stem, i + 1)))
  }

  /** The matcher of `.*KEY.*\.log$` for a literal KEY, applied to a whole file name. */
  predicate LiteralMatches(key: string, name: string) {
    HasLogSuffix(name) && OccursFrom(key, Stem(name), 0)
  }

  lemma {:induction false} OccursFromSomewhere(key: string, stem: string, i: nat)
    requires i <= |stem|
    ensures OccursFrom(key, stem, i) <==> exists j :: i <= j && OccursAt(key, stem, j)
    decreases |stem| - i
  {
    if i + |key| <= |stem| {
      if i < |stem| {
        OccursFromSomewhere(key, stem, i + 1);
        if j :| i <= j && OccursAt(key, stem, j) {
          assert j == i || (i + 1 <= j && OccursAt(key, stem, j));
        }
      } else {
        if j :| i <= j && OccursAt(key, stem, j) {
          assert j == i;
        }
      }
    }
  }

  /**
   * For a literal key the matcher agrees with the regex's meaning: a name
   * matches exactly when it is `p + key + q + ".log"` with line-terminator-free
   * `p` and `q`.
   */
  lemma LiteralMatchesIff(key: string, name: string)
    ensures LiteralMatches(key, name) <==> InSearchLanguage(key, name)
  {
    if LiteralMatches(key, name) {
      var stem := Stem(name);
      OccursFromSomewhere(key, stem, 0);
      var j :| 0 <= j && OccursAt(key, stem, j);
      var p, q := stem[..j], stem[j + |key|..];
      assert stem == p + key + q;
      assert name == stem + LogSuffix;
      assert FreeOfTerminators(p) && FreeOfTerminators(q) && name == p + key + q + LogSuffix;
    }
    if InSearchLanguage(key, name) {
      var p, q :| FreeOfTerminators(p) && FreeOfTerminators(q) && name == p + key + q + LogSuffix;
      assert name[|name| - |LogSuffix|..] == LogSuffix;
      var stem := Stem(name);
      assert stem == p + key + q;
      assert stem[..|p|] == p && stem[|p|..|p| + |key|] == key && stem[|p| + |key|..] == q;
      assert OccursAt(key, stem, |p|);
      OccursFromSomewhere(key, stem, 0);
    }
  }

  /** Whatever the key, a name the matcher accepts ends in `.log`. */
  lemma LiteralMatchEndsInLog(key: string, name: string)
    requires LiteralMatches(key, name)
    ensures HasLogSuffix(name)
  {
  }

  // ---------------------------------------------------------------------------
  // Keeping the matching entries of a listing

  /** What `Path.toString()` gives for an entry of the directory `dir`. */
  function EntryPath(dir: string, name: string): string {
    dir + "/" + name
  }

  lemma EntryPathInjective(dir: string, a: string, b: string)
    requires EntryPath(dir, a) == EntryPath(dir, b)
    ensures a == b
  {
    assert EntryPath(dir, a)[|dir| + 1..] == a;
    assert EntryPath(dir, b)[|dir| + 1..] == b;
  }

  /** The entries the glob `*.log` lets through, in enumeration order. */
  function LogGlob(names: seq<string>): (kept: seq<string>)
    ensures forall n :: n in kept <==> n in names && HasLogSuffix(n)
  {
    if names == [] then []
    else (if HasLogSuffix(names[0]) then [names[0]] else []) + LogGlob(names[1..])
  }

  /** The full paths of the entries `matches` accepts, in enumeration order. */
  function Matched(dir: string, names: seq<string>, matches: string -> bool): (paths: seq<string>)
    ensures |paths| <= |names|
    ensures forall x :: x in paths ==> exists n :: n in names && matches(n) && x == EntryPath(dir, n)
  {
    if names == [] then []
    else (if matches(names[0]) then [EntryPath(dir, names[0])] else []) + Matched(dir, names[1..], matches)
  }

  /** Extending the listing by one entry extends the result by that entry's path, or by nothing. */
  lemma {:induction false} MatchedSnoc(dir: string, names: seq<string>, n: string, matches: string -> bool)
    ensures Matched(dir, names + [n], matches)
         == Matched(dir, names, matches) + (if matches(n) then [EntryPath(dir, n)] else [])
    decreases |names|
  {
    if names != [] {
      assert (names + [n])[1..] == names[1..] + [n];
      MatchedSnoc(dir, names[1..], n, matches);
    } else {
      assert names + [n] == [n];
    }
  }

  /** Every matching entry appears exactly as often as in the listing; nothing else appears. */
  lemma {:induction false} MatchedCount(dir: string, names: seq<string>, matches: string -> bool, n: string)
    ensures multiset(Matched(dir, names, matches))[EntryPath(dir, n)]
         == if matches(n) then multiset(names)[n] else 0
    decreases |names|
  {
    if names != [] {
      MatchedCount(dir, names[1..], matches, n);
      assert names == [names[0]] + names[1..];
      if EntryPath(dir, names[0]) == EntryPath(dir, n) {
        EntryPathInjective(dir, names[0], n);
      }
    }
  }

  /** `sub` is `s` with some elements left out and the rest in their order. */
  predicate IsSubsequence<T(==)>(sub: seq<T>, s: seq<T>)
    decreases |s|
  {
    if sub == [] then true
    else if s == [] then false
    else if sub[0] == s[0] then IsSubsequence(sub[1..], s[1..])
    else IsSubsequence(sub, s[1..])
  }

  /** The paths of all entries of a listing, in enumeration order. */
  function Paths(dir: string, names: seq<string>): seq<string> {
    seq(|names|, i requires 0 <= i < |names| => EntryPath(dir, names[i]))
  }

  /** The result keeps the enumeration order: it is a subsequence of the listing's paths. */
  lemma {:induction false} MatchedIsSubsequence(dir: string, names: seq<string>, matches: string -> bool)
    ensures IsSubsequence(Matched(dir, names, matches), Paths(dir, names))
    decreases |names|
  {
    if names != [] {
      MatchedIsSubsequence(dir, names[1..], matches);
      assert Paths(dir, names)[1..] == Paths(dir, names[1..]);
      if !matches(names[0]) {
        var rest := Matched(dir, names[1..], matches);
        if rest != [] {
          // The first path kept is never the path of the dropped entry.
          SkipNonMatching(dir, names, matches);
        }
      }
    }
  }

  lemma SkipNonMatching(dir: string, names: seq<string>, matches: string -> bool)
    requires names != [] && !matches(names[0])
    requires IsSubsequence(Matched(dir, names[1..], matches), Paths(dir, names[1..]))
    requires Paths(dir, names)[1..] == Paths(dir, names[1..])
    ensures IsSubsequence(Matched(dir, names, matches), Paths(dir, names))
  {
    var rest := Matched(dir, names[1..], matches);
    assert Matched(dir, names, matches) == rest;
    if rest != [] && rest[0] == Paths(dir, names)[0] {
      assert rest[0] in rest;
      var n :| n in names[1..] && matches(n) && rest[0] == EntryPath(dir, n);
      EntryPathInjective(dir, n, names[0]);
      assert false;
    }
  }

  /** Nothing matches exactly when the result is empty. */
  lemma {:induction false} MatchedEmptyIff(dir: string, names: seq<string>, matches: string -> bool)
    ensures Matched(dir, names, matches) == [] <==> forall i :: 0 <= i < |names| ==> !matches(names[i])
    decreases |names|
  {
    if names != [] {
      MatchedEmptyIff(dir, names[1..], matches);
      assert forall i :: 1 <= i < |names| ==> names[i] == names[1..][i - 1];
    }
  }

  /** Filtering by the glob, then by a matcher, keeps the entries that pass both, in order. */
  lemma {:induction false} GlobThenMatch(dir: string, names: seq<string>, matches: string -> bool)
    ensures Matched(dir, LogGlob(names), matches) == Matched(dir, names, n => HasLogSuffix(n) && matches(n))
    decreases |names|
  {
    if names != [] {
      GlobThenMatch(dir, names[1..], matches);
      if HasLogSuffix(names[0]) {
        assert LogGlob(names) == [names[0]] + LogGlob(names[1..]);
        assert LogGlob(names)[1..] == LogGlob(names[1..]);
      } else {
        assert LogGlob(names) == LogGlob(names[1..]);
      }
    }
  }

  /** The regex already demands the `.log` suffix, so the glob in front of it changes nothing. */
  lemma {:induction false} GlobIsRedundant(dir: string, names: seq<string>, key: string)
    ensures Matched(dir, LogGlob(names), n => LiteralMatches(key, n))
         == Matched(dir, names, n => LiteralMatches(key, n))
    decreases |names|
  {
    if names != [] {
      GlobIsRedundant(dir, names[1..], key);
      if HasLogSuffix(names[0]) {
        assert LogGlob(names) == [names[0]] + LogGlob(names[1..]);
      } else {
        assert LogGlob(names) == LogGlob(names[1..]);
      }
    }
  }
}

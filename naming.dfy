/**
 * Output naming (app.py lines 193-206): the source's base name without its
 * extension is filtered down to letters, digits, space, `-` and `_`, trailing
 * whitespace is stripped, an empty result becomes "converted", and the first
 * of `name.webp`, `name_1.webp`, `name_2.webp`, ... that does not exist yet
 * in the output folder is chosen.
 *
 * `str.isalnum` consults the Unicode database; the set of characters it
 * accepts is a parameter `alnum` here.
 */
module Naming {

  /** `str.isspace`: the characters Python's `rstrip()` removes. */
  predicate IsPySpace(c: char) {
    c == ' ' || ('\t' <= c <= '\r') || ('\U{1C}' <= c <= '\U{1F}') || c == '\U{85}' ||
    c == '\U{A0}' || c == '\U{1680}' || ('\U{2000}' <= c <= '\U{200A}') ||
    c == '\U{2028}' || c == '\U{2029}' || c == '\U{202F}' || c == '\U{205F}' || c == '\U{3000}'
  }

  /**
   * `a` can be obtained from `b` by deleting elements: the kept ones stay in
   * order. Matching each element of `a` with its earliest occurrence decides it.
   */
  predicate IsSubsequence<T(==)>(a: seq<T>, b: seq<T>)
    decreases |b|
  {
    if a == [] then true
    else if b == [] then false
    else if a[0] == b[0] then IsSubsequence(a[1..], b[1..])
    else IsSubsequence(a, b[1..])
  }

  lemma {:induction false} PrefixOfSubsequence<T>(p: seq<T>, a: seq<T>, b: seq<T>)
    requires IsSubsequence(a, b) && p <= a
    ensures IsSubsequence(p, b)
    decreases |b|
  {
    if p != [] && b != [] {
      if a[0] == b[0] {
        PrefixOfSubsequence(p[1..], a[1..], b[1..]);
      } else {
        PrefixOfSubsequence(p, a, b[1..]);
      }
    }
  }

  /** Dropping the first element of a subsequence leaves a subsequence. */
  lemma {:induction false} TailOfSubsequence<T>(a: seq<T>, b: seq<T>)
    requires IsSubsequence(a, b) && a != []
    ensures IsSubsequence(a[1..], b)
    decreases |b|, |a|
  {
    if a[1..] != [] {
      if a[0] == b[0] {
        SubsequenceOfTail(a[1..], b);
      } else {
        TailOfSubsequence(a, b[1..]);
        SubsequenceOfTail(a[1..], b);
      }
    }
  }

  /** A subsequence of `b[1..]` is a subsequence of `b`. */
  lemma {:induction false} SubsequenceOfTail<T>(a: seq<T>, b: seq<T>)
    requires b != [] && IsSubsequence(a, b[1..])
    ensures IsSubsequence(a, b)
    decreases |b|, |a|
  {
    if a != [] && a[0] == b[0] {
      TailOfSubsequence(a, b[1..]);
    }
  }

  /** `os.path.basename` for POSIX paths: what follows the last `/`. */
  function BaseName(path: string): string
  {
    if path == [] || path[|path| - 1] == '/' then []
    else BaseName(path[..|path| - 1]) + [path[|path| - 1]]
  }

  /**
   * The base name is the longest suffix of the path without a `/`: it ends
   * the path, holds no `/`, and is preceded by a `/` unless it is the whole path.
   */
  lemma {:induction false} BaseNameIsLastComponent(path: string)
    ensures LastComponent(path, BaseName(path))
  {
    if path != [] && path[|path| - 1] != '/' {
      var init, c := path[..|path| - 1], path[|path| - 1];
      assert BaseName(path) == BaseName(init) + [c];
      hide *;
      assert path == init + [c];
      BaseNameIsLastComponent(init);
      LastComponentGrows(init, c, BaseName(init));
    }
  }

  /**
   * `r` is what follows the last `/` of `path`: a suffix without `/` that is
   * the whole path or follows a `/`.
   */
  predicate LastComponent(path: string, r: string) {
    '/' !in r && |r| <= |path| && r == path[|path| - |r|..] &&
    (r == path || path[|path| - |r| - 1] == '/')
  }

  lemma LastComponentGrows(init: string, c: char, rest: string)
    requires LastComponent(init, rest) && c != '/'
    ensures LastComponent(init + [c], rest + [c])
  {
    var path := init + [c];
    assert path[|init| - |rest|..] == init[|init| - |rest|..] + [c];
  }

  /** Index of the last `.`, or -1. */
  function LastDot(s: string): (i: int)
    ensures -1 <= i < |s|
  {
    if s == [] then -1
    else if s[|s| - 1] == '.' then |s| - 1
    else LastDot(s[..|s| - 1])
  }

  /** `LastDot` finds a dot, and no dot follows it; -1 means there is none. */
  lemma {:induction false} LastDotSpec(s: string)
    ensures var i := LastDot(s);
      (i >= 0 ==> s[i] == '.') && forall j :: i < j < |s| ==> s[j] != '.'
  {
    if s != [] && s[|s| - 1] != '.' {
      LastDotSpec(s[..|s| - 1]);
    }
  }

  /** Conversely, a dot with no dot after it is the one `LastDot` finds. */
  lemma {:induction false} LastDotAt(s: string, i: int)
    requires 0 <= i < |s| && s[i] == '.' && forall j :: i < j < |s| ==> s[j] != '.'
    ensures LastDot(s) == i
  {
    if i < |s| - 1 {
      LastDotAt(s[..|s| - 1], i);
    }
  }

  /**
   * `os.path.splitext(name)[0]` for a name without `/`: the part before the
   * last dot, unless everything before that dot is dots (".bashrc" stays whole).
   */
  function Stem(name: string): string
  {
    var d := LastDot(name);
    if d > 0 && !AllDots(name[..d]) then name[..d] else name
  }

  /** Whether every character is a dot. */
  predicate AllDots(s: string) {
    s == [] || (s[0] == '.' && AllDots(s[1..]))
  }

  lemma {:induction false} AllDotsIff(s: string)
    ensures AllDots(s) <==> forall j :: 0 <= j < |s| ==> s[j] == '.'
  {
    if s != [] {
      AllDotsIff(s[1..]);
    }
  }

  /**
   * The stem is a prefix of the name; when it is shorter, a dot follows it,
   * no dot comes after that one, and the stem holds something other than dots.
   * The name is kept whole exactly when all that precedes its last dot is dots.
   */
  lemma StemSpec(name: string)
    ensures var r := Stem(name);
      r <= name &&
      (r != name ==> name[|r|] == '.' && (forall j :: |r| < j < |name| ==> name[j] != '.') &&
                     exists j :: 0 <= j < |r| && r[j] != '.') &&
      (r == name <==> forall j :: 0 <= j < LastDot(name) ==> name[j] == '.')
  {
    LastDotSpec(name);
    var d := LastDot(name);
    if d > 0 {
      AllDotsIff(name[..d]);
    }
  }

  /** The characters the name filter keeps (line 194). */
  predicate Allowed(c: char, alnum: set<char>) {
    c in alnum || c == ' ' || c == '-' || c == '_'
  }

  /** The generator expression of line 194: the allowed characters, in order. */
  function KeepAllowed(s: string, alnum: set<char>): string
  {
    if s == [] then []
    else (if Allowed(s[0], alnum) then [s[0]] else []) + KeepAllowed(s[1..], alnum)
  }

  /** The filter never lengthens the name and keeps only allowed characters. */
  lemma {:induction false} KeepAllowedSpec(s: string, alnum: set<char>)
    ensures var r := KeepAllowed(s, alnum);
      |r| <= |s| && forall i :: 0 <= i < |r| ==> Allowed(r[i], alnum)
  {
    if s != [] {
      KeepAllowedSpec(s[1..], alnum);
    }
  }

  /** The filter keeps characters in their original order. */
  lemma {:induction false} KeepAllowedOrdered(s: string, alnum: set<char>)
    ensures IsSubsequence(KeepAllowed(s, alnum), s)
  {
    if s != [] {
      KeepAllowedOrdered(s[1..], alnum);
      var r, rest := KeepAllowed(s, alnum), KeepAllowed(s[1..], alnum);
      if Allowed(s[0], alnum) {
        assert r == [s[0]] + rest;
        assert r != [] && r[0] == s[0] && r[1..] == rest;
      } else {
        assert r == rest;
        SubsequenceOfTail(rest, s);
      }
    }
  }

  /** The filter keeps every occurrence of an allowed character and no other character. */
  lemma {:induction false} KeepAllowedCounts(s: string, alnum: set<char>)
    ensures forall c :: multiset(KeepAllowed(s, alnum))[c] == if Allowed(c, alnum) then multiset(s)[c] else 0
  {
    if s != [] {
      KeepAllowedCounts(s[1..], alnum);
      assert s == [s[0]] + s[1..];
    }
  }

  /** `str.rstrip()`: the longest prefix that does not end in whitespace. */
  function RStrip(s: string): string
  {
    if s == [] || !IsPySpace(s[|s| - 1]) then s else RStrip(s[..|s| - 1])
  }

  /**
   * `rstrip` removes a suffix made only of whitespace, and what it leaves
   * does not end in whitespace.
   */
  lemma {:induction false} RStripSpec(s: string)
    ensures var r := RStrip(s);
      r <= s && (forall i :: |r| <= i < |s| ==> IsPySpace(s[i])) && (r == [] || !IsPySpace(r[|r| - 1]))
  {
    if s != [] && IsPySpace(s[|s| - 1]) {
      RStripSpec(s[..|s| - 1]);
    }
  }

  const Fallback: string := "converted"

  /** Lines 193-196 after `basename`/`splitext`: the sanitised name, never empty. */
  function SafeName(stem: string, alnum: set<char>): string
  {
    var trimmed := Trimmed(stem, alnum);
    if trimmed == [] then Fallback else trimmed
  }

  /**
   * The sanitised name is never empty and never ends in whitespace; unless it
   * is the fallback it keeps allowed characters of the stem, in order; every
   * allowed character that is not whitespace survives; and only a stem with
   * nothing to keep falls back.
   */
  lemma SafeNameSpec(stem: string, alnum: set<char>)
    ensures var r := SafeName(stem, alnum);
      r != [] && !IsPySpace(r[|r| - 1]) &&
      (r == Fallback || (IsSubsequence(r, stem) && forall i :: 0 <= i < |r| ==> Allowed(r[i], alnum))) &&
      (forall i :: 0 <= i < |stem| && Allowed(stem[i], alnum) && !IsPySpace(stem[i]) ==> stem[i] in r) &&
      ((forall i :: 0 <= i < |stem| && Allowed(stem[i], alnum) ==> IsPySpace(stem[i])) ==> r == Fallback)
  {
    TrimmedSpec(stem, alnum);
  }

  /** The filtered and stripped name before the fallback is applied. */
  function Trimmed(stem: string, alnum: set<char>): string
  {
    RStrip(KeepAllowed(stem, alnum))
  }

  lemma TrimmedSpec(stem: string, alnum: set<char>)
    ensures var r := Trimmed(stem, alnum);
      (r == [] || !IsPySpace(r[|r| - 1])) &&
      IsSubsequence(r, stem) && (forall i :: 0 <= i < |r| ==> Allowed(r[i], alnum)) &&
      (forall i :: 0 <= i < |stem| && Allowed(stem[i], alnum) && !IsPySpace(stem[i]) ==> stem[i] in r) &&
      ((forall i :: 0 <= i < |stem| && Allowed(stem[i], alnum) ==> IsPySpace(stem[i])) ==> r == [])
  {
    var kept := KeepAllowed(stem, alnum);
    KeepAllowedSpec(stem, alnum);
    RStripSpec(kept);
    KeepAllowedOrdered(stem, alnum);
    PrefixOfSubsequence(RStrip(kept), kept, stem);
    SurvivesTrim(stem, alnum);
    NothingToKeep(stem, alnum);
  }

  lemma NothingToKeep(stem: string, alnum: set<char>)
    ensures (forall i :: 0 <= i < |stem| && Allowed(stem[i], alnum) ==> IsPySpace(stem[i])) ==>
              RStrip(KeepAllowed(stem, alnum)) == []
  {
    var kept := KeepAllowed(stem, alnum);
    KeepAllowedCounts(stem, alnum);
    KeepAllowedSpec(stem, alnum);
    if forall i :: 0 <= i < |stem| && Allowed(stem[i], alnum) ==> IsPySpace(stem[i]) {
      forall i | 0 <= i < |kept| ensures IsPySpace(kept[i]) {
        var c := kept[i];
        assert multiset(kept)[c] > 0;
        assert c in stem;
      }
      RStripAllSpace(kept);
    }
  }

  lemma {:induction false} RStripAllSpace(s: string)
    requires forall i :: 0 <= i < |s| ==> IsPySpace(s[i])
    ensures RStrip(s) == []
  {
    if s != [] {
      RStripAllSpace(s[..|s| - 1]);
    }
  }

  lemma SurvivesTrim(stem: string, alnum: set<char>)
    ensures forall i :: 0 <= i < |stem| && Allowed(stem[i], alnum) && !IsPySpace(stem[i]) ==>
              stem[i] in RStrip(KeepAllowed(stem, alnum))
  {
    var kept := KeepAllowed(stem, alnum);
    var trimmed := RStrip(kept);
    RStripSpec(kept);
    KeepAllowedSpec(stem, alnum);
    KeepAllowedCounts(stem, alnum);
    forall i | 0 <= i < |stem| && Allowed(stem[i], alnum) && !IsPySpace(stem[i])
      ensures stem[i] in trimmed
    {
      var c := stem[i];
      assert multiset(stem)[c] > 0;
      assert c in kept;
      var j :| 0 <= j < |kept| && kept[j] == c;
      assert j < |trimmed|;
      assert trimmed[j] == c;
    }
  }

  /** Filtering a string made only of allowed characters leaves it unchanged. */
  lemma {:induction false} KeepAllowedIdentity(s: string, alnum: set<char>)
    requires forall i :: 0 <= i < |s| ==> Allowed(s[i], alnum)
    ensures KeepAllowed(s, alnum) == s
  {
    if s != [] {
      KeepAllowedIdentity(s[1..], alnum);
    }
  }

  /** Sanitising is idempotent: a sanitised name is its own sanitised name. */
  lemma {:induction false} SafeNameIdempotent(stem: string, alnum: set<char>)
    requires forall i :: 0 <= i < |Fallback| ==> Fallback[i] in alnum
    ensures SafeName(SafeName(stem, alnum), alnum) == SafeName(stem, alnum)
  {
    var r := SafeName(stem, alnum);
    SafeNameSpec(stem, alnum);
    RStripSpec(r);
    assert forall i :: 0 <= i < |r| ==> Allowed(r[i], alnum);
    KeepAllowedIdentity(r, alnum);
  }

  /** Decimal digit characters. */
  function DigitChar(d: int): (c: char)
    requires 0 <= d < 10
    ensures '0' <= c <= '9' && c as int - '0' as int == d
  {
    (('0' as int) + d) as char
  }

  /** `str(n)` for a natural number. */
  function NatToString(n: nat): string
    decreases n
  {
    if n < 10 then [DigitChar(n)] else NatToString(n / 10) + [DigitChar(n % 10)]
  }

  /** `str(n)` is a non-empty string of digits with no leading zero unless `n` is 0. */
  lemma {:induction false} NatToStringDigits(n: nat)
    ensures var s := NatToString(n);
      |s| >= 1 && (forall i :: 0 <= i < |s| ==> '0' <= s[i] <= '9') && (s[0] == '0' ==> n == 0)
    decreases n
  {
    if n >= 10 {
      NatToStringDigits(n / 10);
    }
  }

  /** Reading a string of decimal digits back as a number. */
  function ParseDecimal(s: string): int
  {
    if s == [] then 0
    else ParseDecimal(s[..|s| - 1]) * 10 + (s[|s| - 1] as int - '0' as int)
  }

  lemma {:induction false} DecimalRoundTrip(n: nat)
    ensures ParseDecimal(NatToString(n)) == n
    decreases n
  {
    NatToStringDigits(n);
    if n >= 10 {
      DecimalRoundTrip(n / 10);
      NatToStringDigits(n / 10);
      var s := NatToString(n);
      assert s[..|s| - 1] == NatToString(n / 10);
    }
  }

  /** The k-th name tried: `safe.webp` first, then `safe_k.webp` (lines 198 and 204). */
  function Candidate(safe: string, k: nat): string
  {
    if k == 0 then safe + ".webp" else safe + "_" + NatToString(k) + ".webp"
  }

  /** Every candidate starts with the safe name and ends in `.webp`; only the first adds nothing else. */
  lemma CandidateShape(safe: string, k: nat)
    ensures var name := Candidate(safe, k);
      |name| >= |safe| + 5 && name[..|safe|] == safe && name[|name| - 5..] == ".webp" &&
      (k == 0 <==> |name| == |safe| + 5)
  {
  }

  /** Different attempts never produce the same name. */
  lemma {:induction false} CandidateInjective(safe: string, j: nat, k: nat)
    requires Candidate(safe, j) == Candidate(safe, k)
    ensures j == k
  {
    if j > 0 && k > 0 {
      var cj, ck := Candidate(safe, j), Candidate(safe, k);
      assert cj[|safe| + 1..|cj| - 5] == NatToString(j);
      assert ck[|safe| + 1..|ck| - 5] == NatToString(k);
      DecimalRoundTrip(j);
      DecimalRoundTrip(k);
    }
  }

  /**
   * How many candidates are taken in a folder holding `existing`: the first
   * attempt whose name is free.
   */
  ghost function FirstFree(safe: string, existing: set<string>): nat
  {
    FirstFreeFrom(safe, existing, 0)
  }

  /** The attempt chosen is free, and every earlier attempt is taken. */
  lemma FirstFreeIsFirst(safe: string, existing: set<string>)
    ensures var k := FirstFree(safe, existing);
      Candidate(safe, k) !in existing && forall j :: 0 <= j < k ==> Candidate(safe, j) in existing
  {
    FirstFreeFromSpec(safe, existing, 0);
  }

  ghost function FirstFreeFrom(safe: string, existing: set<string>, c: nat): nat
    requires Tried(safe, c) <= existing
    decreases |existing| - c
  {
    TriedCard(safe, c);
    SubsetCard(Tried(safe, c), existing);
    TriedHas(safe, c);
    if Candidate(safe, c) !in existing then c
    else
      NotYetTried(safe, c, c);
      TriedCard(safe, c + 1);
      SubsetCard(Tried(safe, c + 1), existing);
      FirstFreeFrom(safe, existing, c + 1)
  }

  /**
   * Searching from attempt `c`, when all earlier attempts are taken, stops at
   * the first free attempt at or after `c`.
   */
  lemma {:induction false} FirstFreeFromSpec(safe: string, existing: set<string>, c: nat)
    requires Tried(safe, c) <= existing
    ensures var k := FirstFreeFrom(safe, existing, c);
      c <= k && Candidate(safe, k) !in existing && forall j :: 0 <= j < k ==> Candidate(safe, j) in existing
    decreases |existing| - c
  {
    TriedCard(safe, c);
    SubsetCard(Tried(safe, c), existing);
    TriedHas(safe, c);
    if Candidate(safe, c) in existing {
      NotYetTried(safe, c, c);
      TriedCard(safe, c + 1);
      SubsetCard(Tried(safe, c + 1), existing);
      FirstFreeFromSpec(safe, existing, c + 1);
    }
  }

  /**
   * Lines 198-206: try candidates in order until one is not among the
   * existing names of the output folder.
   */
  method ResolveOutputName(safe: string, existing: set<string>) returns (name: string)
    ensures name == Candidate(safe, FirstFree(safe, existing))
  {
    name := safe + ".webp";
    var counter := 1;
    while name in existing
      invariant counter >= 1 && name == Candidate(safe, counter - 1)
      invariant Tried(safe, counter - 1) <= existing
      invariant FirstFreeFrom(safe, existing, counter - 1) == FirstFree(safe, existing)
      decreases |existing| - (counter - 1)
    {
      NotYetTried(safe, counter - 1, counter - 1);
      TriedCard(safe, counter);
      SubsetCard(Tried(safe, counter), existing);
      name := safe + "_" + NatToString(counter) + ".webp";
      counter := counter + 1;
    }
  }

  /** The names taken by the first `c` attempts. */
  ghost function Tried(safe: string, c: nat): set<string>
  {
    if c == 0 then {} else Tried(safe, c - 1) + {Candidate(safe, c - 1)}
  }

  lemma {:induction false} NotYetTried(safe: string, c: nat, m: nat)
    requires m >= c
    ensures Candidate(safe, m) !in Tried(safe, c)
  {
    if c > 0 {
      NotYetTried(safe, c - 1, m);
      if Candidate(safe, c - 1) == Candidate(safe, m) { CandidateInjective(safe, c - 1, m); }
    }
  }

  lemma {:induction false} TriedHas(safe: string, c: nat)
    ensures forall j :: 0 <= j < c ==> Candidate(safe, j) in Tried(safe, c)
  {
    if c > 0 {
      TriedHas(safe, c - 1);
    }
  }

  lemma {:induction false} TriedCard(safe: string, c: nat)
    ensures |Tried(safe, c)| == c
  {
    if c > 0 {
      TriedCard(safe, c - 1);
      NotYetTried(safe, c - 1, c - 1);
    }
  }

  lemma {:induction false} SubsetCard<T>(a: set<T>, b: set<T>)
    requires a <= b
    ensures |a| <= |b|
  {
    assert b == a + (b - a);
  }

  lemma {:induction false} KeepAllowedAppend(a: string, b: string, alnum: set<char>)
    ensures KeepAllowed(a + b, alnum) == KeepAllowed(a, alnum) + KeepAllowed(b, alnum)
  {
    if a != [] {
      assert (a + b)[0] == a[0] && (a + b)[1..] == a[1..] + b;
      KeepAllowedAppend(a[1..], b, alnum);
      var head := if Allowed(a[0], alnum) then [a[0]] else [];
      calc {
        KeepAllowed(a + b, alnum);
        head + KeepAllowed(a[1..] + b, alnum);
        head + (KeepAllowed(a[1..], alnum) + KeepAllowed(b, alnum));
        (head + KeepAllowed(a[1..], alnum)) + KeepAllowed(b, alnum);
        KeepAllowed(a, alnum) + KeepAllowed(b, alnum);
      }
    } else {
      assert a + b == b;
    }
  }

  /** A name without `/` is its own base name, and so is it after a directory. */
  lemma {:induction false} BaseNameOfFile(dir: string, name: string)
    requires '/' !in name
    ensures BaseName(name) == name && BaseName(dir + "/" + name) == name
  {
    var p := dir + "/" + name;
    if name != [] {
      var init := name[..|name| - 1];
      assert p[..|p| - 1] == dir + "/" + init;
      BaseNameOfFile(dir, init);
    }
  }

  /** A name whose last dot follows a character other than a dot loses that dot and what follows. */
  lemma StemAtLastDot(name: string, d: int)
    requires 0 < d && LastDot(name) == d && name[0] != '.'
    ensures Stem(name) == name[..d]
  {
  }

  /** The last dot of a file name, found from the end. */
  lemma LastDotExamples()
    ensures LastDot("evil*name.mp4") == 9 && LastDot("clip.mp4") == 4
  {
    var e := "evil*name.mp4";
    assert e[9] == '.' && e[10] != '.' && e[11] != '.' && e[12] != '.';
    LastDotAt(e, 9);
    var c := "clip.mp4";
    assert c[4] == '.' && c[5] != '.' && c[6] != '.' && c[7] != '.';
    LastDotAt(c, 4);
  }

  /** The source path's file name without its extension (line 193). */
  lemma BaseNameExample()
    ensures BaseName("../../evil*name.mp4") == "evil*name.mp4"
  {
    var e := "evil*name.mp4";
    assert "../../evil*name.mp4" == "../.." + "/" + e;
    BaseNameOfFile("../..", e);
  }

  lemma StemExample()
    ensures Stem(BaseName("../../evil*name.mp4")) == "evil*name"
  {
    var e := "evil*name.mp4";
    BaseNameExample();
    LastDotExamples();
    StemAtLastDot(e, 9);
  }

  lemma StemExampleClip()
    ensures Stem(BaseName("clip.mp4")) == "clip"
  {
    var c := "clip.mp4";
    BaseNameOfFile([], c);
    LastDotExamples();
    StemAtLastDot(c, 4);
  }

  /** The characters of the ASCII range that `str.isalnum` accepts, all the worked examples need. */
  const AsciiAlnum: set<char> := set c: char | 'a' <= c <= 'z' || 'A' <= c <= 'Z' || '0' <= c <= '9'

  /** A name with a symbol keeps only its letters; a clean name is kept as it is. */
  lemma SanitizeExample()
    ensures SafeName("evil*name", AsciiAlnum) == "evilname"
    ensures SafeName("clip", AsciiAlnum) == "clip"
  {
    FilterExample();
    FilterExampleClip();
    StripExample();
  }

  lemma FilterExample()
    ensures KeepAllowed("evil*name", AsciiAlnum) == "evilname"
  {
    assert 'e' in AsciiAlnum && 'v' in AsciiAlnum && 'i' in AsciiAlnum && 'l' in AsciiAlnum;
    assert 'n' in AsciiAlnum && 'a' in AsciiAlnum && 'm' in AsciiAlnum;
    assert "evil*name" == "evil" + "*name";
    KeepAllowedAppend("evil", "*name", AsciiAlnum);
    KeepAllowedIdentity("evil", AsciiAlnum);
    KeepAllowedIdentity("name", AsciiAlnum);
    assert "*name"[1..] == "name";
  }

  lemma FilterExampleClip()
    ensures KeepAllowed("clip", AsciiAlnum) == "clip"
  {
    assert 'c' in AsciiAlnum && 'l' in AsciiAlnum && 'i' in AsciiAlnum && 'p' in AsciiAlnum;
    KeepAllowedIdentity("clip", AsciiAlnum);
  }

  lemma StripExample()
    ensures RStrip("evilname") == "evilname" && RStrip("clip") == "clip"
  {
  }

  /** The names tried for `clip`, in order. */
  lemma CandidateExamples()
    ensures Candidate("clip", 0) == "clip.webp"
    ensures Candidate("clip", 1) == "clip_1.webp" && Candidate("clip", 2) == "clip_2.webp"
  {
    assert NatToString(1) == "1" && NatToString(2) == "2";
  }

  /** With `clip.webp` taken the output is `clip_1.webp`; with that taken too, `clip_2.webp`. */
  lemma CollisionExample()
    ensures Candidate("clip", FirstFree("clip", {"clip.webp"})) == "clip_1.webp"
    ensures Candidate("clip", FirstFree("clip", {"clip.webp", "clip_1.webp"})) == "clip_2.webp"
  {
    CandidateExamples();
    FirstFreeIsFirst("clip", {"clip.webp"});
    FirstFreeIsFirst("clip", {"clip.webp", "clip_1.webp"});
  }
}

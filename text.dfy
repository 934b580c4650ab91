/** The JavaScript string operations the store uses, on `seq<char>`:
    `replace` with a string pattern (first occurrence only, and the `$`
    patterns of its replacement string), `trim`, `toLowerCase` as far as the
    words compared with it need, `startsWith`, and `split(sep, 2)[1]`. */
module Text {

  datatype Option<T> = None | Some(value: T)

  // ---------------------------------------------------------------------
  // Searching

  /** `pat` occurs in `s` starting at index `i`. */
  ghost predicate OccursAt(s: string, pat: string, i: int) {
    0 <= i && i + |pat| <= |s| && s[i..i + |pat|] == pat
  }

  /** The least index at or after `from` where `pat` occurs in `s`. */
  function FindFrom(s: string, pat: string, from: nat): (r: Option<nat>)
    requires from <= |s|
    ensures r.Some? ==> from <= r.value && OccursAt(s, pat, r.value)
    ensures r.Some? ==> forall j :: from <= j < r.value ==> !OccursAt(s, pat, j)
    ensures r.None? ==> forall j :: from <= j ==> !OccursAt(s, pat, j)
    decreases |s| - from
  {
    if from + |pat| > |s| then None
    else if s[from..from + |pat|] == pat then Some(from)
    else FindFrom(s, pat, from + 1)
  }

  /** `s.indexOf(pat)`, with `None` for -1. */
  function IndexOf(s: string, pat: string): Option<nat> {
    FindFrom(s, pat, 0)
  }

  // ---------------------------------------------------------------------
  // String.prototype.replace with a string pattern

  /** The replacement text for one match: `$$` is a dollar sign, `$&` the
      match, `` $` `` the text before it and `$'` the text after it. With a
      string pattern there are no capture groups, so every other `$` is
      literal. */
  function Expand(rep: string, matched: string, before: string, after: string): string
    decreases |rep|
  {
    if rep == [] then []
    else if rep[0] == '$' && |rep| >= 2 && rep[1] in "$&`'" then
      var piece :=
        if rep[1] == '$' then "$"
        else if rep[1] == '&' then matched
        else if rep[1] == '`' then before
        else after;
      piece + Expand(rep[2..], matched, before, after)
    else [rep[0]] + Expand(rep[1..], matched, before, after)
  }

  /** `s.replace(pat, rep)`: only the first occurrence is replaced; without
      an occurrence the text comes back unchanged. */
  function ReplaceFirst(s: string, pat: string, rep: string): (r: string)
    ensures (forall j :: !OccursAt(s, pat, j)) ==> r == s
  {
    match IndexOf(s, pat)
    case None => s
    case Some(i) =>
      s[..i] + Expand(rep, pat, s[..i], s[i + |pat|..]) + s[i + |pat|..]
  }

  /** A chain of `replace` calls: each pair's pattern is replaced, first
      occurrence only, in the result of the previous one. */
  function ReplaceEach(s: string, subs: seq<(string, string)>): string
    decreases |subs|
  {
    if subs == [] then s else ReplaceEach(ReplaceFirst(s, subs[0].0, subs[0].1), subs[1..])
  }

  /** Two chained replacements. */
  lemma ReplaceEachTwo(s: string, p1: string, r1: string, p2: string, r2: string)
    ensures ReplaceEach(s, [(p1, r1), (p2, r2)]) == ReplaceFirst(ReplaceFirst(s, p1, r1), p2, r2)
  {
    var subs := [(p1, r1), (p2, r2)];
    var once := ReplaceFirst(s, p1, r1);
    assert subs[1..] == [(p2, r2)] && subs[1..][1..] == [];
    assert ReplaceEach(s, subs) == ReplaceEach(once, [(p2, r2)]);
    assert ReplaceEach(once, [(p2, r2)]) == ReplaceEach(ReplaceFirst(once, p2, r2), []);
  }

  /** A replacement without a dollar sign is inserted as it is. */
  lemma {:induction false} ExpandLiteral(rep: string, matched: string, before: string, after: string)
    requires '$' !in rep
    ensures Expand(rep, matched, before, after) == rep
    decreases |rep|
  {
    if rep != [] {
      ExpandLiteral(rep[1..], matched, before, after);
    }
  }

  /** With a first occurrence at `i`, exactly that occurrence is replaced. */
  lemma ReplaceFirstAt(s: string, pat: string, rep: string, i: nat)
    requires OccursAt(s, pat, i)
    requires forall j :: 0 <= j < i ==> !OccursAt(s, pat, j)
    requires '$' !in rep
    ensures ReplaceFirst(s, pat, rep) == s[..i] + rep + s[i + |pat|..]
  {
    var k := IndexOf(s, pat);
    assert k == Some(i);
    ExpandLiteral(rep, pat, s[..i], s[i + |pat|..]);
  }

  /** One occurrence of the pattern after a text that holds none is the first. */
  lemma ReplaceFirstAfter(pre: string, pat: string, post: string, rep: string)
    requires forall j :: 0 <= j < |pre| ==> !OccursAt(pre + pat + post, pat, j)
    requires '$' !in rep
    ensures ReplaceFirst(pre + pat + post, pat, rep) == pre + rep + post
  {
    var s := pre + pat + post;
    assert s[|pre|..|pre| + |pat|] == pat;
    ReplaceFirstAt(s, pat, rep, |pre|);
    assert s[..|pre|] == pre;
    assert s[|pre| + |pat|..] == post;
  }

  // ---------------------------------------------------------------------
  // String.prototype.trim

  /** The characters ECMAScript's `trim` removes: WhiteSpace (tab, vertical
      tab, form feed, space, no-break space, byte order mark and the other
      space separators of Unicode category Zs) and LineTerminator. */
  predicate IsTrimmed(c: char) {
    || c == '\t' || c == '\U{B}' || c == '\U{C}' || c == ' ' || c == '\U{A0}'
    || c == '\U{FEFF}' || c == '\U{1680}' || ('\U{2000}' <= c <= '\U{200A}')
    || c == '\U{202F}' || c == '\U{205F}' || c == '\U{3000}'
    || c == '\n' || c == '\r' || c == '\U{2028}' || c == '\U{2029}'
  }

  ghost predicate AllTrimmed(s: string) {
    forall i :: 0 <= i < |s| ==> IsTrimmed(s[i])
  }

  /** `s` without its leading white space: a suffix of `s`, preceded only by
      white space, and not starting with any. */
  function TrimStart(s: string): (r: string)
    ensures |r| <= |s| && r == s[|s| - |r|..]
    ensures AllTrimmed(s[..|s| - |r|])
    ensures r == [] || !IsTrimmed(r[0])
    decreases |s|
  {
    if s != [] && IsTrimmed(s[0]) then
      var r := TrimStart(s[1..]);
      AfterFirstTrimmed(s, r);
      r
    else s
  }

  lemma AfterFirstTrimmed(s: string, r: string)
    requires s != [] && IsTrimmed(s[0])
    requires |r| <= |s| - 1 && r == s[1..][|s| - 1 - |r|..] && AllTrimmed(s[1..][..|s| - 1 - |r|])
    ensures r == s[|s| - |r|..] && AllTrimmed(s[..|s| - |r|])
  {
    forall k | 0 <= k < |r| ensures r[k] == s[|s| - |r| + k] {
      assert r[k] == s[1..][|s| - 1 - |r| + k];
    }
    forall k | 1 <= k < |s| - |r| ensures IsTrimmed(s[k]) {
      assert s[k] == s[1..][..|s| - 1 - |r|][k - 1];
    }
  }

  /** `s` without its trailing white space. */
  function TrimEnd(s: string): (r: string)
    ensures |r| <= |s| && r == s[..|r|]
    ensures AllTrimmed(s[|r|..])
    ensures r == [] || !IsTrimmed(r[|r| - 1])
    decreases |s|
  {
    if s != [] && IsTrimmed(s[|s| - 1]) then
      var r := TrimEnd(s[..|s| - 1]);
      BeforeLastTrimmed(s, r);
      r
    else s
  }

  lemma BeforeLastTrimmed(s: string, r: string)
    requires s != [] && IsTrimmed(s[|s| - 1])
    requires |r| <= |s| - 1 && r == s[..|s| - 1][..|r|] && AllTrimmed(s[..|s| - 1][|r|..])
    ensures r == s[..|r|] && AllTrimmed(s[|r|..])
  {
    forall k | 0 <= k < |r| ensures r[k] == s[k] {
      assert r[k] == s[..|s| - 1][k];
    }
    forall k | |r| <= k < |s| - 1 ensures IsTrimmed(s[k]) {
      assert s[k] == s[..|s| - 1][|r|..][k - |r|];
    }
  }

  /** `s.trim()`: what it leaves has white space at neither end. */
  function Trim(s: string): (r: string)
    ensures |r| <= |s|
    ensures r == [] || (!IsTrimmed(r[0]) && !IsTrimmed(r[|r| - 1]))
  {
    var t := TrimStart(s);
    var r := TrimEnd(t);
    assert r != [] ==> r[0] == t[0];
    r
  }

  /** `r` is the slice of `s` at `i`, with only white space around it. */
  ghost predicate TrimmedSliceAt(s: string, r: string, i: int) {
    0 <= i && i + |r| <= |s| && r == s[i..i + |r|] && AllTrimmed(s[..i]) && AllTrimmed(s[i + |r|..])
  }

  /** A prefix of a suffix of `s`, both cut at white space, is a slice of
      `s` surrounded by white space. */
  lemma PrefixOfSuffix(s: string, t: string, r: string)
    requires |t| <= |s| && t == s[|s| - |t|..] && AllTrimmed(s[..|s| - |t|])
    requires |r| <= |t| && r == t[..|r|] && AllTrimmed(t[|r|..])
    ensures TrimmedSliceAt(s, r, |s| - |t|)
  {
    var i := |s| - |t|;
    forall k | 0 <= k < |r| ensures r[k] == s[i + k] {
      assert r[k] == t[k];
    }
    forall k | i + |r| <= k < |s| ensures IsTrimmed(s[k]) {
      assert s[k] == t[k - i] == t[|r|..][k - i - |r|];
    }
  }

  /** `trim` leaves the slice of its input that starts after the leading
      white space, and only white space follows it. */
  lemma TrimSliceAt(s: string)
    ensures TrimmedSliceAt(s, Trim(s), |s| - |TrimStart(s)|)
  {
    PrefixOfSuffix(s, TrimStart(s), TrimEnd(TrimStart(s)));
  }

  /** `trim` leaves a text that is a slice of its input, surrounded only by
      white space. */
  lemma TrimSlice(s: string)
    ensures var r := Trim(s);
      exists i :: 0 <= i <= |s| - |r| && r == s[i..i + |r|] && AllTrimmed(s[..i]) && AllTrimmed(s[i + |r|..])
  {
    TrimSliceAt(s);
    var i := |s| - |TrimStart(s)|;
    assert TrimmedSliceAt(s, Trim(s), i);
  }

  /** Trimming twice is trimming once. */
  lemma TrimIdempotent(s: string)
    ensures Trim(Trim(s)) == Trim(s)
  {
    var r := Trim(s);
    assert TrimStart(r) == r;
  }

  // ---------------------------------------------------------------------
  // Case and prefixes

  /** `toLowerCase` on one character, for the letters A to Z. (The query
      words these results are compared with are ASCII, and the only
      character outside ASCII that lower-cases to a single ASCII letter is
      the Kelvin sign, to 'k', which none of them contains.) */
  function Lower(c: char): char {
    if 'A' <= c <= 'Z' then (c as int + 32) as char else c
  }

  function ToLower(s: string): (r: string)
    ensures |r| == |s| && forall i :: 0 <= i < |s| ==> r[i] == Lower(s[i])
  {
    seq(|s|, i requires 0 <= i < |s| => Lower(s[i]))
  }

  /** `a` and `b` agree letter by letter once both are lower-cased. */
  ghost predicate SameIgnoringCase(a: string, b: string) {
    |a| == |b| && forall i :: 0 <= i < |a| ==> Lower(a[i]) == Lower(b[i])
  }

  /** Comparing `s.toLowerCase()` with a lower-case word is comparing `s`
      with that word regardless of case. */
  lemma ToLowerIsSameIgnoringCase(s: string, w: string)
    requires forall i :: 0 <= i < |w| ==> Lower(w[i]) == w[i]
    ensures ToLower(s) == w <==> SameIgnoringCase(s, w)
  {
    if SameIgnoringCase(s, w) {
      assert forall i :: 0 <= i < |s| ==> ToLower(s)[i] == w[i];
    }
  }

  /** `s.startsWith(p)`. */
  predicate StartsWith(s: string, p: string) {
    |p| <= |s| && s[..|p|] == p
  }

  // ---------------------------------------------------------------------
  // split

  /** `t` is the text that follows the separator at index `i`, the first
      separator of `s`, up to the next separator or the end. */
  ghost predicate FieldAfter(s: string, sep: char, i: int, t: string) {
    && 0 <= i < |s| && s[i] == sep && sep !in s[..i]
    && StartsWith(s[i + 1..], t)
    && (i + 1 + |t| == |s| || s[i + 1 + |t|] == sep)
  }

  /** The first separator and the field after it are determined by `s`. */
  lemma FieldAfterUnique(s: string, sep: char, i1: int, t1: string, i2: int, t2: string)
    requires FieldAfter(s, sep, i1, t1) && sep !in t1
    requires FieldAfter(s, sep, i2, t2) && sep !in t2
    ensures i1 == i2 && t1 == t2
  {
    forall k | 0 <= k < i1 ensures s[k] != sep {
      assert s[k] == s[..i1][k];
    }
    forall k | 0 <= k < i2 ensures s[k] != sep {
      assert s[k] == s[..i2][k];
    }
    var i := i1;
    forall k | i + 1 <= k < i + 1 + |t1| ensures s[k] != sep {
      assert s[k] == s[i + 1..][..|t1|][k - i - 1] && t1[k - i - 1] in t1;
    }
    forall k | i + 1 <= k < i + 1 + |t2| ensures s[k] != sep {
      assert s[k] == s[i + 1..][..|t2|][k - i - 1] && t2[k - i - 1] in t2;
    }
    assert |t1| == |t2|;
  }

  /** `s.split(sep, 2)[1]`: the text between the first and the second
      separator (or the end), or `None` when `s` has no separator. */
  function SecondField(s: string, sep: char): (r: Option<string>)
    ensures r.None? <==> sep !in s
    ensures r.Some? ==> sep !in r.value
    ensures r.Some? ==> exists i :: FieldAfter(s, sep, i, r.value)
  {
    match IndexOf(s, [sep])
    case None =>
      assert forall j :: 0 <= j < |s| ==> s[j] != sep by {
        forall j | 0 <= j < |s| ensures s[j] != sep {
          assert !OccursAt(s, [sep], j);
          assert s[j..j + 1] == [s[j]];
        }
      }
      None
    case Some(i) =>
      assert s[i..i + 1] == [s[i]];
      assert sep !in s[..i] by {
        forall j | 0 <= j < i ensures s[..i][j] != sep {
          assert !OccursAt(s, [sep], j);
          assert s[j..j + 1] == [s[j]];
        }
      }
      var rest := s[i + 1..];
      match IndexOf(rest, [sep])
      case None =>
        assert forall j :: 0 <= j < |rest| ==> rest[j] != sep by {
          forall j | 0 <= j < |rest| ensures rest[j] != sep {
            assert !OccursAt(rest, [sep], j);
            assert rest[j..j + 1] == [rest[j]];
          }
        }
        assert rest[..|rest|] == rest;
        assert FieldAfter(s, sep, i, rest);
        Some(rest)
      case Some(j) =>
        assert rest[j..j + 1] == [rest[j]];
        assert sep !in rest[..j] by {
          forall k | 0 <= k < j ensures rest[..j][k] != sep {
            assert !OccursAt(rest, [sep], k);
            assert rest[k..k + 1] == [rest[k]];
          }
        }
        assert FieldAfter(s, sep, i, rest[..j]);
        Some(rest[..j])
  }
}

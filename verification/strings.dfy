/** String operations the pipeline relies on, written the way CPython behaves
    for them: substring tests (`pat in s`), `s.replace(pat, "")`,
    `s.split('\n')`, `s.split()` and ASCII lower-casing. */
module Strings {

  /** `pat` occurs in `s` starting at index `i`. */
  predicate MatchAt(s: string, i: nat, pat: string)
  {
    i + |pat| <= |s| && s[i..i + |pat|] == pat
  }

  /** Python's `pat in s`. */
  predicate Contains(s: string, pat: string)
  {
    exists i: nat | i <= |s| :: MatchAt(s, i, pat)
  }

  /** Occurrences in the tail of `s` are the occurrences in `s`, one place later. */
  lemma ShiftMatch(s: string, i: nat, pat: string)
    requires |s| > 0
    ensures MatchAt(s[1..], i, pat) <==> MatchAt(s, i + 1, pat)
  {
    if i + 1 + |pat| <= |s| {
      assert s[1..][i..i + |pat|] == s[i + 1..i + 1 + |pat|];
    }
  }

  lemma TailContains(s: string, pat: string)
    requires |s| > 0
    ensures Contains(s[1..], pat) ==> Contains(s, pat)
  {
    if Contains(s[1..], pat) {
      var i: nat :| i <= |s[1..]| && MatchAt(s[1..], i, pat);
      ShiftMatch(s, i, pat);
    }
  }

  /** Python's `s.replace(pat, "")`: scans left to right and deletes every
      non-overlapping occurrence of `pat`. An empty `pat` leaves `s` as it is. */
  function RemoveAll(s: string, pat: string): (r: string)
    ensures |r| <= |s|
    decreases |s|
  {
    if |pat| == 0 || |s| < |pat| then s
    else if s[..|pat|] == pat then RemoveAll(s[|pat|..], pat)
    else [s[0]] + RemoveAll(s[1..], pat)
  }

  /** A text without any occurrence of `pat` is left unchanged. */
  lemma {:induction false} RemoveAllAbsent(s: string, pat: string)
    requires !Contains(s, pat)
    ensures RemoveAll(s, pat) == s
    decreases |s|
  {
    if 0 < |pat| <= |s| {
      assert !MatchAt(s, 0, pat);
      TailContains(s, pat);
      RemoveAllAbsent(s[1..], pat);
      assert [s[0]] + s[1..] == s;
    }
  }

  lemma RemoveAllStep(s: string, pat: string)
    requires 0 < |pat| <= |s|
    requires !MatchAt(s, 0, pat)
    ensures RemoveAll(s, pat) == [s[0]] + RemoveAll(s[1..], pat)
  {
  }

  /** No occurrence of `pat` in `s` starts before index `n`. */
  predicate NoMatchBefore(s: string, n: nat, pat: string)
  {
    forall i: nat :: i < n ==> !MatchAt(s, i, pat)
  }

  /** Characters before the first occurrence of `pat` pass through `RemoveAll` untouched. */
  lemma {:induction false} RemoveAllKeepsUnmatchedPrefix(s: string, n: nat, pat: string)
    requires |pat| > 0 && n <= |s|
    requires NoMatchBefore(s, n, pat)
    ensures RemoveAll(s, pat) == s[..n] + RemoveAll(s[n..], pat)
    decreases n
  {
    if n == 0 {
      assert s[..n] + s[n..] == s;
    } else if |s| < |pat| {
      assert |s[n..]| < |pat|;
      assert s[..n] + s[n..] == s;
    } else {
      var t := s[1..];
      assert NoMatchBefore(t, n - 1, pat) by {
        forall i: nat | i < n - 1
          ensures !MatchAt(t, i, pat)
        {
          ShiftMatch(s, i, pat);
        }
      }
      RemoveAllKeepsUnmatchedPrefix(t, n - 1, pat);
      assert t[n - 1..] == s[n..];
      assert !MatchAt(s, 0, pat);
      RemoveAllStep(s, pat);
      PrefixAssoc(s, n, RemoveAll(t, pat), RemoveAll(s[n..], pat));
    }
  }

  /** Concatenation regrouped; stated once so that heavier proofs can cite it. */
  lemma ConcatAssoc<T>(a: seq<T>, b: seq<T>, c: seq<T>)
    ensures (a + b) + c == a + (b + c)
  {
  }

  lemma PrefixAssoc(s: string, n: nat, y: string, z: string)
    requires 0 < n <= |s|
    requires y == s[1..][..n - 1] + z
    ensures [s[0]] + y == s[..n] + z
  {
    assert [s[0]] + s[1..][..n - 1] == s[..n];
  }

  /** No occurrence of `pat` can start inside `k` when `k` itself has none and
      the first character of `t` appears nowhere in `pat` after its first position. */
  lemma NoMatchBeforeSuffix(k: string, t: string, pat: string)
    requires |t| > 0
    requires !Contains(k, pat)
    requires forall j :: 1 <= j < |pat| ==> pat[j] != t[0]
    ensures NoMatchBefore(k + t, |k|, pat)
  {
    forall i: nat | i < |k|
      ensures !MatchAt(k + t, i, pat)
    {
      if i + |pat| <= |k| {
        assert (k + t)[i..i + |pat|] == k[i..i + |pat|];
        assert !MatchAt(k, i, pat);
      } else if i + |pat| <= |k + t| {
        var j := |k| - i;
        assert (k + t)[i..i + |pat|][j] == t[0];
        assert pat[j] != t[0];
      }
    }
  }

  /** Python's `s.split(sep)` for a one-character separator: the pieces between
      separators, empty pieces included, so there is always at least one. */
  function Split(s: string, sep: char): (r: seq<string>)
    ensures |r| > 0
    ensures forall i :: 0 <= i < |r| ==> sep !in r[i]
    decreases |s|
  {
    if |s| == 0 then [""]
    else
      var rest := Split(s[1..], sep);
      if s[0] == sep then [""] + rest
      else [[s[0]] + rest[0]] + rest[1..]
  }

  /** Python's `sep.join(parts)`. */
  function Join(parts: seq<string>, sep: char): string
    requires |parts| > 0
  {
    if |parts| == 1 then parts[0] else parts[0] + [sep] + Join(parts[1..], sep)
  }

  /** Joining the pieces of a split gives back the original text. */
  lemma {:induction false} JoinSplit(s: string, sep: char)
    ensures Join(Split(s, sep), sep) == s
    decreases |s|
  {
    if |s| > 0 {
      var rest := Split(s[1..], sep);
      JoinSplit(s[1..], sep);
      if s[0] == sep {
        assert Split(s, sep) == [""] + rest;
        assert ([""] + rest)[1..] == rest;
      } else {
        var r := Split(s, sep);
        assert r == [[s[0]] + rest[0]] + rest[1..];
        if |rest| == 1 {
          assert Join(r, sep) == [s[0]] + rest[0];
        } else {
          assert r[1..] == rest[1..];
          assert Join(rest, sep) == rest[0] + [sep] + Join(rest[1..], sep);
        }
      }
    }
  }

  /** Splitting a join of separator-free pieces gives back the pieces. */
  lemma {:induction false} SplitJoin(parts: seq<string>, sep: char)
    requires |parts| > 0
    requires forall i :: 0 <= i < |parts| ==> sep !in parts[i]
    ensures Split(Join(parts, sep), sep) == parts
    decreases |parts|, |parts[0]|
  {
    var s := Join(parts, sep);
    if |parts[0]| > 0 {
      var p := parts[0];
      var tail := [p[1..]] + parts[1..];
      JoinHeadChar(parts, sep);
      SplitJoin(tail, sep);
      assert [p[0]] + p[1..] == p;
      assert Split(s, sep) == [[p[0]] + p[1..]] + tail[1..];
    } else if |parts| > 1 {
      JoinHeadSep(parts, sep);
      SplitJoin(parts[1..], sep);
      assert Split(s, sep) == [""] + parts[1..];
    }
  }

  /** A join whose first piece is non-empty starts with that piece's first
      character and continues as the join with that character dropped. */
  lemma JoinHeadChar(parts: seq<string>, sep: char)
    requires |parts| > 0 && |parts[0]| > 0
    ensures var tail := [parts[0][1..]] + parts[1..];
            var s := Join(parts, sep);
            && |s| > 0 && s[0] == parts[0][0] && s[1..] == Join(tail, sep)
            && tail[0] == parts[0][1..] && tail[1..] == parts[1..]
  {
    var tail := [parts[0][1..]] + parts[1..];
    assert tail[1..] == parts[1..];
    if |parts| > 1 {
      var j := Join(parts[1..], sep);
      assert Join(parts, sep) == parts[0] + [sep] + j;
      assert Join(tail, sep) == parts[0][1..] + [sep] + j;
    }
  }

  /** A join whose first piece is empty starts with the separator. */
  lemma JoinHeadSep(parts: seq<string>, sep: char)
    requires |parts| > 1 && |parts[0]| == 0
    ensures var s := Join(parts, sep);
            |s| > 0 && s[0] == sep && s[1..] == Join(parts[1..], sep)
  {
    assert Join(parts, sep) == parts[0] + [sep] + Join(parts[1..], sep);
  }

  /** Python's `str.isspace()` for one character, by code point. */
  predicate IsSpace(c: char)
  {
    var n := c as int;
    || 0x09 <= n <= 0x0D
    || 0x1C <= n <= 0x20
    || n == 0x85 || n == 0xA0 || n == 0x1680
    || 0x2000 <= n <= 0x200A
    || n == 0x2028 || n == 0x2029 || n == 0x202F || n == 0x205F || n == 0x3000
  }

  predicate NoSpace(w: string)
  {
    forall i :: 0 <= i < |w| ==> !IsSpace(w[i])
  }

  /** The longest space-free prefix of `s`. */
  function Word(s: string): (w: string)
    ensures |w| <= |s| && w == s[..|w|]
    ensures NoSpace(w)
    ensures |w| == |s| || IsSpace(s[|w|])
    decreases |s|
  {
    if |s| == 0 || IsSpace(s[0]) then "" else [s[0]] + Word(s[1..])
  }

  /** Python's `s.split()` with no argument: the maximal runs of non-space characters. */
  function Fields(s: string): (r: seq<string>)
    ensures forall i :: 0 <= i < |r| ==> |r[i]| > 0 && NoSpace(r[i])
    decreases |s|
  {
    if |s| == 0 then []
    else if IsSpace(s[0]) then Fields(s[1..])
    else
      var w := Word(s);
      [w] + Fields(s[|w|..])
  }

  lemma {:induction false} WordOfSpaceFree(w: string, rest: string)
    requires NoSpace(w)
    requires |rest| == 0 || IsSpace(rest[0])
    ensures Word(w + rest) == w
    decreases |w|
  {
    if |w| > 0 {
      assert (w + rest)[1..] == w[1..] + rest;
      WordOfSpaceFree(w[1..], rest);
      assert [w[0]] + w[1..] == w;
    } else {
      assert w + rest == rest;
    }
  }

  /** `s.split()` undoes `" ".join(words)` for non-empty, space-free words. */
  lemma {:induction false} FieldsOfJoin(words: seq<string>)
    requires |words| > 0
    requires forall i :: 0 <= i < |words| ==> |words[i]| > 0 && NoSpace(words[i])
    ensures Fields(Join(words, ' ')) == words
    decreases |words|
  {
    var s := Join(words, ' ');
    var w := words[0];
    if |words| == 1 {
      WordOfSpaceFree(w, "");
      assert w + "" == w;
      assert s[|w|..] == "";
    } else {
      var rest := [' '] + Join(words[1..], ' ');
      assert s == w + rest;
      WordOfSpaceFree(w, rest);
      assert s[|w|..] == rest;
      assert Fields(rest) == Fields(Join(words[1..], ' '));
      FieldsOfJoin(words[1..]);
      assert [w] + words[1..] == words;
    }
  }

  /** A run of whitespace only (possibly empty). */
  predicate AllSpace(s: string)
  {
    forall i :: 0 <= i < |s| ==> IsSpace(s[i])
  }

  /** Words laid out with the given separators between them:
      `words[0] + gaps[0] + words[1] + ... + words[n-1]`. */
  function Interleave(words: seq<string>, gaps: seq<string>): (r: string)
    requires |words| > 0 && |gaps| == |words| - 1
    ensures |words[0]| <= |r| && r[..|words[0]|] == words[0]
    decreases |words|
  {
    if |words| == 1 then words[0] else words[0] + gaps[0] + Interleave(words[1..], gaps[1..])
  }

  /** Leading whitespace does not change `s.split()`. */
  lemma {:induction false} FieldsSkipSpace(sp: string, s: string)
    requires AllSpace(sp)
    ensures Fields(sp + s) == Fields(s)
    decreases |sp|
  {
    if |sp| > 0 {
      assert (sp + s)[1..] == sp[1..] + s;
      FieldsSkipSpace(sp[1..], s);
    } else {
      assert sp + s == s;
    }
  }

  /** A space-free word followed by a space or the end is the first field. */
  lemma FieldsWordFirst(w: string, rest: string)
    requires |w| > 0 && NoSpace(w)
    requires |rest| == 0 || IsSpace(rest[0])
    ensures Fields(w + rest) == [w] + Fields(rest)
  {
    WordOfSpaceFree(w, rest);
    assert (w + rest)[|w|..] == rest;
  }

  /** `s.split()` recovers the words of any layout: whitespace runs of any
      positive length between them and of any length after them. */
  lemma {:induction false} FieldsOfInterleave(words: seq<string>, gaps: seq<string>, trail: string)
    requires |words| > 0 && |gaps| == |words| - 1
    requires forall i :: 0 <= i < |words| ==> |words[i]| > 0 && NoSpace(words[i])
    requires forall i :: 0 <= i < |gaps| ==> |gaps[i]| > 0 && AllSpace(gaps[i])
    requires AllSpace(trail)
    ensures Fields(Interleave(words, gaps) + trail) == words
    decreases |words|
  {
    var w := words[0];
    if |words| == 1 {
      FieldsWordFirst(w, trail);
      FieldsSkipSpace(trail, "");
      assert trail + "" == trail;
    } else {
      var tail := Interleave(words[1..], gaps[1..]) + trail;
      ConcatAssoc(w + gaps[0], Interleave(words[1..], gaps[1..]), trail);
      ConcatAssoc(w, gaps[0], tail);
      assert (gaps[0] + tail)[0] == gaps[0][0];
      FieldsWordFirst(w, gaps[0] + tail);
      FieldsSkipSpace(gaps[0], tail);
      FieldsOfInterleave(words[1..], gaps[1..], trail);
      assert [w] + words[1..] == words;
    }
  }

  /** The same with leading whitespace as well. */
  lemma FieldsOfLayout(lead: string, words: seq<string>, gaps: seq<string>, trail: string)
    requires AllSpace(lead) && AllSpace(trail)
    requires |words| > 0 && |gaps| == |words| - 1
    requires forall i :: 0 <= i < |words| ==> |words[i]| > 0 && NoSpace(words[i])
    requires forall i :: 0 <= i < |gaps| ==> |gaps[i]| > 0 && AllSpace(gaps[i])
    ensures Fields(lead + Interleave(words, gaps) + trail) == words
  {
    ConcatAssoc(lead, Interleave(words, gaps), trail);
    FieldsSkipSpace(lead, Interleave(words, gaps) + trail);
    FieldsOfInterleave(words, gaps, trail);
  }

  /** ASCII lower-casing of one character; other characters are kept. */
  function LowerChar(c: char): char
  {
    if 'A' <= c <= 'Z' then (c as int + 32) as char else c
  }

  /** `s.lower()` restricted to ASCII letters. */
  function Lower(s: string): (r: string)
    ensures |r| == |s|
    ensures forall i :: 0 <= i < |s| ==> r[i] == LowerChar(s[i])
    ensures forall i :: 0 <= i < |r| ==> !('A' <= r[i] <= 'Z')
  {
    seq(|s|, i requires 0 <= i < |s| => LowerChar(s[i]))
  }

  /** Lower-casing twice is lower-casing once. */
  lemma LowerIdempotent(s: string)
    ensures Lower(Lower(s)) == Lower(s)
  {
    forall i | 0 <= i < |s| ensures Lower(Lower(s))[i] == Lower(s)[i] {
      assert !('A' <= Lower(s)[i] <= 'Z');
    }
  }

  /** Any case variant of a pattern found in `s` is found, lower-cased, in the
      lower-cased `s`: so `"search" in url.lower()` holds for every URL holding
      `Search`, `SEARCH` and the like. */
  lemma LowerKeepsMatch(s: string, v: string)
    requires Contains(s, v)
    ensures Contains(Lower(s), Lower(v))
  {
    var i: nat :| i <= |s| && MatchAt(s, i, v);
    var ls, lv := Lower(s), Lower(v);
    forall j | 0 <= j < |v| ensures ls[i..i + |v|][j] == lv[j] {
      assert s[i..i + |v|][j] == v[j];
    }
    assert MatchAt(ls, i, lv);
  }
}

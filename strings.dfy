/**
 * The behaviour of Python's `str` that the two services rely on, written out on
 * `seq<char>`: `sub in s`, `s.replace(pat, rep)`, `s.split(sep)` and `sep.join(parts)`
 * (the reference against which `replace` is proved), `s.strip()`, `s.lower()` and
 * `s.endswith(suffix)`.
 */
module Strings {

  /** Python's `sub in s`; the empty string is in every string. */
  predicate Contains(s: string, sub: string)
    decreases |s|
  {
    sub <= s || (|s| > 0 && Contains(s[1..], sub))
  }

  /** `sub` stands in `s` starting at position `i`. */
  predicate OccursAt(s: string, sub: string, i: int)
  {
    0 <= i && i + |sub| <= |s| && s[i..i + |sub|] == sub
  }

  /** `Contains` agrees with the positional definition of a substring. */
  lemma {:induction false} ContainsAt(s: string, sub: string)
    ensures Contains(s, sub) <==> exists i :: OccursAt(s, sub, i)
    decreases |s|
  {
    if sub <= s {
      assert OccursAt(s, sub, 0);
    } else if |s| > 0 {
      ContainsAt(s[1..], sub);
      if exists i :: OccursAt(s, sub, i) {
        var i :| OccursAt(s, sub, i);
        assert i != 0;
        OccursAtShift(s, 1, sub, i - 1);
      }
      if Contains(s[1..], sub) {
        var i :| OccursAt(s[1..], sub, i);
        OccursAtShift(s, 1, sub, i);
      }
    }
  }

  /**
   * Python's `s.replace(pat, rep)`: the occurrences of `pat` found by scanning from
   * the left, without overlap, are each replaced by `rep`.
   */
  function ReplaceAll(s: string, pat: string, rep: string): string
    decreases |s|
  {
    if |pat| == 0 then Interleave(s, rep)
    else if pat <= s then rep + ReplaceAll(s[|pat|..], pat, rep)
    else if |s| == 0 then s
    else [s[0]] + ReplaceAll(s[1..], pat, rep)
  }

  /** Python's `s.replace("", rep)`: `rep` before every character and once at the end. */
  function Interleave(s: string, rep: string): string
  {
    if |s| == 0 then rep else rep + [s[0]] + Interleave(s[1..], rep)
  }

  /** Python's `s.split(sep)`, which refuses an empty separator. */
  function Split(s: string, sep: string): (parts: seq<string>)
    requires |sep| > 0
    ensures |parts| > 0
    decreases |s|
  {
    if sep <= s then [[]] + Split(s[|sep|..], sep)
    else if |s| == 0 then [[]]
    else
      var rest := Split(s[1..], sep);
      [[s[0]] + rest[0]] + rest[1..]
  }

  /** Python's `sep.join(parts)`. */
  function Join(parts: seq<string>, sep: string): string
  {
    if |parts| == 0 then []
    else if |parts| == 1 then parts[0]
    else parts[0] + sep + Join(parts[1..], sep)
  }

  lemma JoinConsChar(c: char, parts: seq<string>, sep: string)
    requires |parts| > 0
    ensures Join([[c] + parts[0]] + parts[1..], sep) == [c] + Join(parts, sep)
  {
    var q := [[c] + parts[0]] + parts[1..];
    assert q[1..] == parts[1..];
  }

  lemma JoinConsEmpty(parts: seq<string>, sep: string)
    requires |parts| > 0
    ensures Join([[]] + parts, sep) == sep + Join(parts, sep)
  {
    assert ([[]] + parts)[1..] == parts;
  }

  /** `s.replace(pat, rep)` is `rep.join(s.split(pat))`. */
  lemma {:induction false} ReplaceAllIsJoinOfSplit(s: string, pat: string, rep: string)
    requires |pat| > 0
    ensures ReplaceAll(s, pat, rep) == Join(Split(s, pat), rep)
    decreases |s|
  {
    if pat <= s {
      ReplaceAllIsJoinOfSplit(s[|pat|..], pat, rep);
      JoinConsEmpty(Split(s[|pat|..], pat), rep);
    } else if |s| == 0 {
    } else {
      ReplaceAllIsJoinOfSplit(s[1..], pat, rep);
      JoinConsChar(s[0], Split(s[1..], pat), rep);
    }
  }

  /** Joining the pieces back with the separator gives the original string. */
  lemma {:induction false} JoinOfSplit(s: string, sep: string)
    requires |sep| > 0
    ensures Join(Split(s, sep), sep) == s
    decreases |s|
  {
    if sep <= s {
      JoinOfSplit(s[|sep|..], sep);
      JoinConsEmpty(Split(s[|sep|..], sep), sep);
      assert s == sep + s[|sep|..];
    } else if |s| == 0 {
    } else {
      JoinOfSplit(s[1..], sep);
      JoinConsChar(s[0], Split(s[1..], sep), sep);
      assert s == [s[0]] + s[1..];
    }
  }

  lemma {:induction false} SplitHeadIsPrefix(s: string, sep: string)
    requires |sep| > 0
    ensures Split(s, sep)[0] <= s
    decreases |s|
  {
    if sep <= s {
    } else if |s| == 0 {
    } else {
      SplitHeadIsPrefix(s[1..], sep);
    }
  }

  /** No piece of a split contains the separator. */
  lemma {:induction false} SplitPiecesAreFree(s: string, sep: string)
    requires |sep| > 0
    ensures forall k :: 0 <= k < |Split(s, sep)| ==> !Contains(Split(s, sep)[k], sep)
    decreases |s|
  {
    var parts := Split(s, sep);
    if sep <= s {
      SplitPiecesAreFree(s[|sep|..], sep);
      assert parts[1..] == Split(s[|sep|..], sep);
      forall k | 0 <= k < |parts| ensures !Contains(parts[k], sep) {
        if k > 0 {
          assert parts[k] == parts[1..][k - 1];
        }
      }
    } else if |s| == 0 {
    } else {
      var rest := Split(s[1..], sep);
      SplitPiecesAreFree(s[1..], sep);
      SplitHeadIsPrefix(s[1..], sep);
      var head := [s[0]] + rest[0];
      assert head <= s;
      assert !(sep <= head);
      forall k | 0 <= k < |parts| ensures !Contains(parts[k], sep) {
        if k > 0 {
          assert parts[k] == rest[k];
        } else {
          assert head[1..] == rest[0];
        }
      }
    }
  }

  /** A string without an occurrence of `pat` is left as it is. */
  lemma {:induction false} ReplaceAllWithoutOccurrence(s: string, pat: string, rep: string)
    requires !Contains(s, pat)
    ensures ReplaceAll(s, pat, rep) == s
    decreases |s|
  {
    if |s| > 0 {
      ReplaceAllWithoutOccurrence(s[1..], pat, rep);
      assert s == [s[0]] + s[1..];
    }
  }

  /** No occurrence of `pat` in `s` starts before position `n` and ends after it. */
  predicate CleanCut(s: string, pat: string, n: int)
  {
    forall j :: 0 <= j < n < j + |pat| ==> !OccursAt(s, pat, j)
  }

  /** An occurrence in a suffix is an occurrence in the whole, shifted. */
  lemma OccursAtShift(s: string, d: nat, pat: string, j: nat)
    requires d <= |s|
    ensures OccursAt(s[d..], pat, j) <==> OccursAt(s, pat, j + d)
  {
    if j + |pat| <= |s| - d {
      assert s[d..][j..j + |pat|] == s[j + d..j + d + |pat|];
    }
  }

  /** An occurrence in a prefix is an occurrence in the whole. */
  lemma OccursAtPrefix(s: string, n: nat, pat: string, j: nat)
    requires n <= |s|
    ensures OccursAt(s[..n], pat, j) ==> OccursAt(s, pat, j)
  {
    if j + |pat| <= n {
      assert s[..n][j..j + |pat|] == s[j..j + |pat|];
    }
  }

  /**
   * Where no occurrence of `pat` straddles the boundary between `a` and `b`, the
   * left-to-right scan reaches the boundary exactly, so the two parts are replaced apart.
   */
  lemma {:induction false} ReplaceAllConcat(a: string, b: string, pat: string, rep: string)
    requires |pat| > 0
    requires CleanCut(a + b, pat, |a|)
    ensures ReplaceAll(a + b, pat, rep) == ReplaceAll(a, pat, rep) + ReplaceAll(b, pat, rep)
    decreases |a|
  {
    var s := a + b;
    if |a| == 0 {
      assert s == b;
    } else {
      var d := if pat <= s then |pat| else 1;
      if pat <= s {
        assert OccursAt(s, pat, 0);
        assert pat <= a;
      } else {
        assert !(pat <= a);
      }
      assert s[d..] == a[d..] + b;
      CleanCutShift(s, d, pat, |a|);
      ReplaceAllConcat(a[d..], b, pat, rep);
    }
  }

  /** Dropping the first `d` characters moves a clean cut `d` places to the left. */
  lemma CleanCutShift(s: string, d: nat, pat: string, n: nat)
    requires d <= n <= |s|
    requires CleanCut(s, pat, n)
    ensures CleanCut(s[d..], pat, n - d)
  {
    forall j | 0 <= j < n - d < j + |pat| ensures !OccursAt(s[d..], pat, j) {
      OccursAtShift(s, d, pat, j);
    }
  }

  /** A string holds whatever stands in its middle. */
  lemma ContainsMiddle(a: string, m: string, b: string)
    ensures Contains(a + m + b, m)
  {
    var r := a + m + b;
    assert r[|a|..|a| + |m|] == m;
    assert OccursAt(r, m, |a|);
    ContainsAt(r, m);
  }

  /** No occurrence of `pat` overlaps the `n` characters of `s` from position `i`. */
  predicate Untouched(s: string, pat: string, i: int, n: int)
  {
    forall j :: 0 <= j < i + n && i < j + |pat| ==> !OccursAt(s, pat, j)
  }

  /** Where the stretch from `i` is untouched, no occurrence straddles position `i`. */
  lemma UntouchedCutBefore(s: string, pat: string, i: nat, n: nat)
    requires Untouched(s, pat, i, n)
    ensures CleanCut(s, pat, i)
  {
  }

  /** Where the stretch from `i` is untouched, no occurrence straddles its end in `s[i..]`. */
  lemma UntouchedCutAfter(s: string, pat: string, i: nat, n: nat)
    requires i <= |s|
    requires Untouched(s, pat, i, n)
    ensures CleanCut(s[i..], pat, n)
  {
    forall j | 0 <= j < n < j + |pat| ensures !OccursAt(s[i..], pat, j) {
      OccursAtShift(s, i, pat, j);
    }
  }

  /** An untouched occurrence of `sub` holds no occurrence of `pat`. */
  lemma UntouchedInside(s: string, pat: string, sub: string, i: nat)
    requires |pat| > 0
    requires OccursAt(s, sub, i)
    requires Untouched(s, pat, i, |sub|)
    ensures !Contains(sub, pat)
  {
    assert s[i..][..|sub|] == sub;
    forall j | 0 <= j ensures !OccursAt(sub, pat, j) {
      OccursAtShift(s, i, pat, j);
      OccursAtPrefix(s[i..], |sub|, pat, j);
    }
    ContainsAt(sub, pat);
  }

  /** Replacing around a middle part that holds no occurrence and that none straddles. */
  lemma ReplaceAllAround(a: string, sub: string, b: string, pat: string, rep: string)
    requires |pat| > 0
    requires CleanCut(a + (sub + b), pat, |a|)
    requires CleanCut(sub + b, pat, |sub|)
    requires !Contains(sub, pat)
    ensures ReplaceAll(a + (sub + b), pat, rep) == ReplaceAll(a, pat, rep) + sub + ReplaceAll(b, pat, rep)
  {
    ReplaceAllConcat(a, sub + b, pat, rep);
    ReplaceAllConcat(sub, b, pat, rep);
    ReplaceAllWithoutOccurrence(sub, pat, rep);
  }

  /**
   * An occurrence of `sub` that no occurrence of `pat` overlaps comes through
   * `s.replace(pat, rep)` verbatim, between the replaced text before and after it.
   */
  lemma ReplaceAllKeeps(s: string, pat: string, rep: string, sub: string, i: nat)
    requires |pat| > 0
    requires OccursAt(s, sub, i)
    requires Untouched(s, pat, i, |sub|)
    ensures ReplaceAll(s, pat, rep)
            == ReplaceAll(s[..i], pat, rep) + sub + ReplaceAll(s[i + |sub|..], pat, rep)
    ensures Contains(ReplaceAll(s, pat, rep), sub)
  {
    var a, b := s[..i], s[i + |sub|..];
    assert s[i..] == sub + b;
    assert s == a + (sub + b);
    UntouchedCutBefore(s, pat, i, |sub|);
    UntouchedCutAfter(s, pat, i, |sub|);
    UntouchedInside(s, pat, sub, i);
    ReplaceAllAround(a, sub, b, pat, rep);
    ContainsMiddle(ReplaceAll(a, pat, rep), sub, ReplaceAll(b, pat, rep));
  }

  /** `s` without any occurrence of the character `c`. */
  function RemoveChar(s: string, c: char): (r: string)
    ensures c !in r
    ensures |r| <= |s|
  {
    if |s| == 0 then [] else (if s[0] == c then [] else [s[0]]) + RemoveChar(s[1..], c)
  }

  lemma {:induction false} RemoveCharConcat(a: string, b: string, c: char)
    ensures RemoveChar(a + b, c) == RemoveChar(a, c) + RemoveChar(b, c)
  {
    if |a| > 0 {
      RemoveCharConcat(a[1..], b, c);
      assert (a + b)[1..] == a[1..] + b;
    } else {
      assert a + b == b;
    }
  }

  lemma {:induction false} RemoveCharFree(s: string, c: char)
    requires c !in s
    ensures RemoveChar(s, c) == s
  {
    if |s| > 0 {
      RemoveCharFree(s[1..], c);
    }
  }

  /** Deleting the one `c` of `x + [c] + y` leaves `x + y`. */
  lemma RemoveCharOnce(x: string, y: string, c: char)
    requires c !in x && c !in y
    ensures RemoveChar(x + [c] + y, c) == x + y
  {
    RemoveCharFree(x, c);
    RemoveCharFree(y, c);
    var xc := x + [c];
    RemoveCharConcat(x, [c], c);
    assert RemoveChar(xc, c) == x;
    RemoveCharConcat(xc, y, c);
  }

  /** `s.replace(c, "")` deletes every `c` and keeps the other characters in order. */
  lemma {:induction false} ReplaceCharByNothing(s: string, c: char)
    ensures ReplaceAll(s, [c], "") == RemoveChar(s, c)
    decreases |s|
  {
    if |s| > 0 {
      ReplaceCharByNothing(s[1..], c);
    }
  }

  /** Python's `str.isspace()` on one character: the characters `s.strip()` removes. */
  predicate IsSpace(c: char)
  {
    || '\U{9}' <= c <= '\U{D}'
    || '\U{1C}' <= c <= '\U{20}'
    || c == '\U{85}' || c == '\U{A0}' || c == '\U{1680}'
    || '\U{2000}' <= c <= '\U{200A}'
    || c == '\U{2028}' || c == '\U{2029}' || c == '\U{202F}' || c == '\U{205F}' || c == '\U{3000}'
  }

  function LeadingSpaces(s: string): (n: nat)
    ensures n <= |s|
    ensures forall k :: 0 <= k < n ==> IsSpace(s[k])
    ensures n < |s| ==> !IsSpace(s[n])
  {
    if |s| > 0 && IsSpace(s[0]) then 1 + LeadingSpaces(s[1..]) else 0
  }

  function TrailingSpaces(s: string): (n: nat)
    ensures n <= |s|
    ensures forall k :: |s| - n <= k < |s| ==> IsSpace(s[k])
    ensures n < |s| ==> !IsSpace(s[|s| - 1 - n])
  {
    if |s| > 0 && IsSpace(s[|s| - 1]) then 1 + TrailingSpaces(s[..|s| - 1]) else 0
  }

  /**
   * Python's `s.strip()`: the slice of `s` left after removing whitespace at both
   * ends, so that it neither starts nor ends with whitespace.
   */
  function Strip(s: string): string
  {
    var t := s[LeadingSpaces(s)..];
    t[..|t| - TrailingSpaces(t)]
  }

  lemma StripCorrect(s: string)
    ensures var r := Strip(s);
            && (exists i :: OccursAt(s, r, i)
                            && (forall k :: 0 <= k < i ==> IsSpace(s[k]))
                            && (forall k :: i + |r| <= k < |s| ==> IsSpace(s[k])))
            && (|r| > 0 ==> !IsSpace(r[0]) && !IsSpace(r[|r| - 1]))
  {
    var i := LeadingSpaces(s);
    var t := s[i..];
    var n := TrailingSpaces(t);
    var r := t[..|t| - n];
    assert r == Strip(s);
    assert s[i..i + |r|] == r;
    forall k | i + |r| <= k < |s| ensures IsSpace(s[k]) {
      assert s[k] == t[k - i];
    }
    assert OccursAt(s, r, i);
    if |r| > 0 {
      assert r[0] == t[0] && r[|r| - 1] == t[|t| - 1 - n];
    }
  }

  /** ASCII lower-casing of one character. */
  function LowerChar(c: char): char
  {
    if 'A' <= c <= 'Z' then (c as int + 32) as char else c
  }

  /** `s.lower()`, on ASCII letters; every other character is kept. */
  function Lower(s: string): (r: string)
    ensures |r| == |s|
    ensures forall k :: 0 <= k < |s| ==> r[k] == LowerChar(s[k])
  {
    if |s| == 0 then [] else [LowerChar(s[0])] + Lower(s[1..])
  }

  /** Python's `s.endswith(suffix)`. */
  predicate EndsWith(s: string, suffix: string)
  {
    |suffix| <= |s| && s[|s| - |suffix|..] == suffix
  }
}

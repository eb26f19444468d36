/**
 * Python's `re.search(r'-?\d*\.?\d+', s)`, the repair the extraction loop applies to
 * answers of fields typed "number".
 *
 * At a given start the backtracking matcher tries the sign first, then the longest
 * digit run, then the dot; the first alternative that succeeds is the longest string
 * of the pattern's language starting there. `re.search` takes the first start at which
 * any alternative succeeds. `MatchAt` computes that choice directly, and `FirstMatch`
 * is proved to return the leftmost start and, there, the longest token.
 */
module NumberPattern {
  import opened Wrappers

  /** `\d`, on ASCII digits. */
  predicate IsDigit(c: char)
  {
    '0' <= c <= '9'
  }

  /** The language of `\d*\.?\d+`: digits with at most one '.', ending in a digit. */
  predicate IsUnsigned(u: string)
  {
    && |u| > 0
    && IsDigit(u[|u| - 1])
    && (forall k :: 0 <= k < |u| ==> IsDigit(u[k]) || u[k] == '.')
    && (forall a, b :: 0 <= a < b < |u| && u[a] == '.' ==> u[b] != '.')
  }

  /** The language of the whole pattern `-?\d*\.?\d+`. */
  predicate IsNumberToken(t: string)
  {
    IsUnsigned(t) || (|t| > 0 && t[0] == '-' && IsUnsigned(t[1..]))
  }

  /** Some slice of `s` is a token. */
  ghost predicate HasToken(s: string)
  {
    exists a, e :: 0 <= a <= e <= |s| && IsNumberToken(s[a..e])
  }

  /** `s[a..b]` is the match `re.search` reports: leftmost start, longest token there. */
  ghost predicate LeftmostLongest(s: string, a: nat, b: nat)
  {
    && a <= b <= |s|
    && IsNumberToken(s[a..b])
    && (forall e :: b < e <= |s| ==> !IsNumberToken(s[a..e]))
    && (forall a', e :: 0 <= a' < a && a' <= e <= |s| ==> !IsNumberToken(s[a'..e]))
  }

  /** Length of the run of digits starting at `j`. */
  function DigitRun(s: string, j: nat): (n: nat)
    requires j <= |s|
    ensures j + n <= |s|
    ensures forall k :: j <= k < j + n ==> IsDigit(s[k])
    ensures j + n == |s| || !IsDigit(s[j + n])
    decreases |s| - j
  {
    if j < |s| && IsDigit(s[j]) then 1 + DigitRun(s, j + 1) else 0
  }

  /** End of the match of `\d*\.?\d+` at `j` chosen by the backtracking matcher, if any. */
  function MatchUnsigned(s: string, j: nat): Option<nat>
    requires j <= |s|
  {
    var p := j + DigitRun(s, j);
    if p + 1 < |s| && s[p] == '.' && IsDigit(s[p + 1]) then Some(p + 1 + DigitRun(s, p + 1))
    else if p > j then Some(p)
    else None
  }

  /** End of the match of the whole pattern at `i`: the optional sign first. */
  function MatchAt(s: string, i: nat): Option<nat>
    requires i <= |s|
  {
    if i < |s| && s[i] == '-' then MatchUnsigned(s, i + 1) else MatchUnsigned(s, i)
  }

  lemma MatchUnsignedSound(s: string, j: nat)
    requires j <= |s|
    ensures MatchUnsigned(s, j).Some? ==>
              j < MatchUnsigned(s, j).value <= |s| && IsUnsigned(s[j..MatchUnsigned(s, j).value])
  {
    var n := DigitRun(s, j);
    var p := j + n;
    if p + 1 < |s| && s[p] == '.' && IsDigit(s[p + 1]) {
      var e := p + 1 + DigitRun(s, p + 1);
      var u := s[j..e];
      assert u[n] == '.';
      forall a, b | 0 <= a < b < |u| && u[a] == '.' ensures u[b] != '.' {
        assert a == n;
      }
    } else if p > j {
      var u := s[j..p];
      assert forall k :: 0 <= k < |u| ==> IsDigit(u[k]);
    }
  }

  lemma MatchUnsignedLongest(s: string, j: nat, e: nat)
    requires j <= e <= |s| && IsUnsigned(s[j..e])
    ensures MatchUnsigned(s, j).Some? && e <= MatchUnsigned(s, j).value
  {
    var u := s[j..e];
    var n := DigitRun(s, j);
    var p := j + n;
    // Without a dot `u` is all digits and the leading run reaches `e`; otherwise the
    // dot ends that run, and digits follow it up to `e`.
    if k :| 0 <= k < |u| && u[k] == '.' {
      assert u[k] == s[j + k];
      assert n < |u| ==> u[n] == s[p];
      assert k == n;
      assert k + 1 < |u| && u[k + 1] != '.';
    }
  }

  lemma MatchAtCorrect(s: string, i: nat)
    requires i <= |s|
    ensures MatchAt(s, i).Some? ==> i < MatchAt(s, i).value <= |s| && IsNumberToken(s[i..MatchAt(s, i).value])
    ensures forall e :: i <= e <= |s| && IsNumberToken(s[i..e]) ==> MatchAt(s, i).Some? && e <= MatchAt(s, i).value
  {
    if i < |s| && s[i] == '-' {
      MatchUnsignedSound(s, i + 1);
      if MatchAt(s, i).Some? {
        assert s[i..MatchAt(s, i).value][1..] == s[i + 1..MatchAt(s, i).value];
      }
      forall e | i <= e <= |s| && IsNumberToken(s[i..e])
        ensures MatchAt(s, i).Some? && e <= MatchAt(s, i).value
      {
        var t := s[i..e];
        assert !IsUnsigned(t) by {
          if |t| > 0 {
            assert t[0] == '-';
          }
        }
        assert t[1..] == s[i + 1..e];
        MatchUnsignedLongest(s, i + 1, e);
      }
    } else {
      MatchUnsignedSound(s, i);
      forall e | i <= e <= |s| && IsNumberToken(s[i..e])
        ensures MatchAt(s, i).Some? && e <= MatchAt(s, i).value
      {
        var t := s[i..e];
        assert |t| > 0 ==> t[0] == s[i];
        MatchUnsignedLongest(s, i, e);
      }
    }
  }

  /** `re.search` from position `i` on: the first start with a match, and the match's end. */
  function SearchFrom(s: string, i: nat): (r: Option<(nat, nat)>)
    requires i <= |s|
    ensures r.Some? ==> i <= r.value.0 < r.value.1 <= |s|
    decreases |s| - i
  {
    MatchAtCorrect(s, i);
    match MatchAt(s, i)
    case Some(e) => Some((i, e))
    case None => if i == |s| then None else SearchFrom(s, i + 1)
  }

  /** `s[a..b]` is the longest token at `a`, and no token starts in `[i, a)`. */
  ghost predicate LeftmostLongestFrom(s: string, i: nat, a: nat, b: nat)
  {
    && a <= b <= |s|
    && IsNumberToken(s[a..b])
    && (forall e :: b < e <= |s| ==> !IsNumberToken(s[a..e]))
    && (forall a', e :: i <= a' < a && a' <= e <= |s| ==> !IsNumberToken(s[a'..e]))
  }

  lemma {:induction false} SearchFromCorrect(s: string, i: nat)
    requires i <= |s|
    ensures SearchFrom(s, i).Some? ==> LeftmostLongestFrom(s, i, SearchFrom(s, i).value.0, SearchFrom(s, i).value.1)
    ensures SearchFrom(s, i).None? ==> forall a, e :: i <= a <= e <= |s| ==> !IsNumberToken(s[a..e])
    decreases |s| - i
  {
    MatchAtCorrect(s, i);
    if MatchAt(s, i).None? && i < |s| {
      SearchFromCorrect(s, i + 1);
    }
  }

  /** `re.search(r'-?\d*\.?\d+', s)`: the span of its match, or None. */
  function FirstMatch(s: string): (r: Option<(nat, nat)>)
    ensures r.Some? ==> r.value.0 < r.value.1 <= |s|
  {
    SearchFrom(s, 0)
  }

  /** `FirstMatch` finds the leftmost token and, there, the longest; None exactly when `s` holds no token. */
  lemma FirstMatchCorrect(s: string)
    ensures FirstMatch(s).Some? ==> LeftmostLongest(s, FirstMatch(s).value.0, FirstMatch(s).value.1)
    ensures FirstMatch(s).None? <==> !HasToken(s)
  {
    SearchFromCorrect(s, 0);
    var r := FirstMatch(s);
    assert r.Some? ==> IsNumberToken(s[r.value.0..r.value.1]);
  }
}

/** The string operations the upgrade pipeline relies on: substring search
    (`strings.Contains`, `strings.Index`), replacement of every match of a
    deprecated-API pattern, and splitting on the `---` document separator
    (`strings.Split`). Patterns are literal strings here: a match of `pat` at
    index `i` is an exact copy of `pat` starting there. */
module Text {
  import opened Wrappers

  /** `pat` occurs in `s` starting at index `i`. */
  predicate MatchesAt(s: string, pat: string, i: int) {
    0 <= i && i + |pat| <= |s| && s[i..i + |pat|] == pat
  }

  /** `strings.Contains(s, pat)`. */
  predicate Contains(s: string, pat: string)
    ensures Contains(s, pat) ==> |pat| <= |s|
  {
    exists i :: 0 <= i <= |s| && MatchesAt(s, pat, i)
  }

  /** The first match of `pat` in `s` at or after index `k`. */
  function IndexFrom(s: string, pat: string, k: nat): (r: Option<nat>)
    requires k <= |s|
    ensures r.Some? ==> k <= r.value && MatchesAt(s, pat, r.value)
    ensures r.Some? ==> forall j :: k <= j < r.value ==> !MatchesAt(s, pat, j)
    ensures r.None? ==> forall j :: k <= j ==> !MatchesAt(s, pat, j)
    decreases |s| - k
  {
    if k + |pat| > |s| then None
    else if s[k..k + |pat|] == pat then Some(k)
    else IndexFrom(s, pat, k + 1)
  }

  /** `strings.Index(s, pat)`: the leftmost match, or None when there is none. */
  function IndexOf(s: string, pat: string): (r: Option<nat>)
    ensures r.None? <==> !Contains(s, pat)
    ensures r.Some? ==> MatchesAt(s, pat, r.value)
    ensures r.Some? ==> forall j :: 0 <= j < r.value ==> !MatchesAt(s, pat, j)
  {
    IndexFrom(s, pat, 0)
  }

  /** Every match of `pat` in `s` replaced by `rep`, scanning left to right
      and resuming after each match (so matches never overlap). An empty
      pattern matches at every position, before each character and at the
      end, as Go's `regexp.ReplaceAllString` does for the empty expression. */
  function ReplaceAll(s: string, pat: string, rep: string): (r: string)
    ensures pat != [] && |rep| <= |pat| ==> |r| <= |s|
    ensures |rep| >= |pat| ==> |r| >= |s|
    ensures |rep| == |pat| ==> |r| == |s|
    decreases |s|
  {
    if pat == [] then
      if s == [] then rep else rep + [s[0]] + ReplaceAll(s[1..], pat, rep)
    else if |s| < |pat| then s
    else if s[..|pat|] == pat then rep + ReplaceAll(s[|pat|..], pat, rep)
    else [s[0]] + ReplaceAll(s[1..], pat, rep)
  }

  /** The number of matches `ReplaceAll` replaces. */
  function MatchCount(s: string, pat: string): nat
    decreases |s|
  {
    if pat == [] then |s| + 1
    else if |s| < |pat| then 0
    else if s[..|pat|] == pat then 1 + MatchCount(s[|pat|..], pat)
    else MatchCount(s[1..], pat)
  }

  /** `(c + 1) * d`, multiplied out; kept apart so that the length proofs
      do not reason about products in their own, larger context. */
  lemma Distribute(c: nat, d: int)
    ensures (c + 1) * d == c * d + d
  {
  }

  /** Each replacement changes the length by `|rep| - |pat|`. */
  lemma {:induction false} ReplaceAllLength(s: string, pat: string, rep: string)
    ensures |ReplaceAll(s, pat, rep)| == |s| + MatchCount(s, pat) * (|rep| - |pat|)
    decreases |s|
  {
    if pat == [] {
      if s != [] {
        ReplaceAllLength(s[1..], pat, rep);
        Distribute(MatchCount(s[1..], pat), |rep|);
      }
    } else if |s| < |pat| {
    } else if s[..|pat|] == pat {
      ReplaceAllLength(s[|pat|..], pat, rep);
      Distribute(MatchCount(s[|pat|..], pat), |rep| - |pat|);
    } else {
      ReplaceAllLength(s[1..], pat, rep);
    }
  }

  /** A match anywhere in `s` is a match one position earlier in `s[1..]`,
      unless it is at the very start. */
  lemma ContainsTail(s: string, pat: string)
    requires Contains(s, pat) && !MatchesAt(s, pat, 0)
    ensures |s| > 0 && Contains(s[1..], pat)
  {
    var i :| 0 <= i <= |s| && MatchesAt(s, pat, i);
    assert i > 0;
    assert s[1..][i - 1..i - 1 + |pat|] == s[i..i + |pat|];
    assert MatchesAt(s[1..], pat, i - 1);
  }

  /** A match in the remainder after a skipped prefix is a match in `s`. */
  lemma ContainsFromSuffix(s: string, pat: string, k: nat)
    requires k <= |s| && Contains(s[k..], pat)
    ensures Contains(s, pat)
  {
    var i :| 0 <= i <= |s[k..]| && MatchesAt(s[k..], pat, i);
    assert s[k + i..k + i + |pat|] == s[k..][i..i + |pat|];
    assert MatchesAt(s, pat, k + i);
  }

  /** A non-empty pattern that never occurs is never replaced. */
  lemma {:induction false} ReplaceAllNoMatch(s: string, pat: string, rep: string)
    requires pat != [] && !Contains(s, pat)
    ensures ReplaceAll(s, pat, rep) == s
    decreases |s|
  {
    if |s| >= |pat| {
      assert !MatchesAt(s, pat, 0);
      if Contains(s[1..], pat) {
        ContainsFromSuffix(s, pat, 1);
      }
      ReplaceAllNoMatch(s[1..], pat, rep);
    }
  }

  /** Replacing a pattern by itself changes nothing. */
  lemma {:induction false} ReplaceAllSelf(s: string, pat: string)
    ensures ReplaceAll(s, pat, pat) == s
    decreases |s|
  {
    if pat == [] {
      if s != [] {
        ReplaceAllSelf(s[1..], pat);
      }
    } else if |s| < |pat| {
    } else if s[..|pat|] == pat {
      ReplaceAllSelf(s[|pat|..], pat);
      assert s == s[..|pat|] + s[|pat|..];
    } else {
      ReplaceAllSelf(s[1..], pat);
    }
  }

  /** A text that contains a non-empty pattern has at least one match to replace. */
  lemma {:induction false} MatchCountPositive(s: string, pat: string)
    requires pat != [] && Contains(s, pat)
    ensures MatchCount(s, pat) > 0
    decreases |s|
  {
    var i :| 0 <= i <= |s| && MatchesAt(s, pat, i);
    if s[..|pat|] != pat {
      assert !MatchesAt(s, pat, 0);
      ContainsTail(s, pat);
      MatchCountPositive(s[1..], pat);
    }
  }

  /** With a replacement as long as the pattern but different from it, any
      match makes the text differ at that match's position. */
  lemma {:induction false} ReplaceAllSameLengthChanges(s: string, pat: string, rep: string)
    requires pat != [] && |rep| == |pat| && rep != pat && Contains(s, pat)
    ensures ReplaceAll(s, pat, rep) != s
    decreases |s|
  {
    var r := ReplaceAll(s, pat, rep);
    if s[..|pat|] == pat {
      assert r[..|pat|] == rep;
    } else {
      assert !MatchesAt(s, pat, 0);
      ContainsTail(s, pat);
      ReplaceAllSameLengthChanges(s[1..], pat, rep);
      assert r == [s[0]] + ReplaceAll(s[1..], pat, rep);
      assert s == [s[0]] + s[1..];
    }
  }

  /** A replacement of a different length changes the length of any text
      with a match. */
  lemma ReplaceAllOtherLengthChanges(s: string, pat: string, rep: string)
    requires |rep| != |pat| && MatchCount(s, pat) > 0
    ensures ReplaceAll(s, pat, rep) != s
  {
    ReplaceAllLength(s, pat, rep);
    ProductNonZero(MatchCount(s, pat), |rep| - |pat|);
  }

  lemma ProductNonZero(c: nat, d: int)
    requires c > 0 && d != 0
    ensures c * d != 0
  {
    if d > 0 {
      assert c * d >= d by { MulMonotone(c, d); }
    } else {
      assert c * -d >= -d by { MulMonotone(c, -d); }
    }
  }

  lemma {:induction false} MulMonotone(c: nat, d: nat)
    requires c > 0
    ensures c * d >= d
  {
    if c > 1 {
      MulMonotone(c - 1, d);
      Distribute(c - 1, d);
    }
  }

  /** Replacement changes the text exactly when the replacement differs from
      the pattern and the pattern matches somewhere (the empty pattern always
      matches). This is the "modified" test of the rule pass. */
  lemma ReplaceAllChangesIff(s: string, pat: string, rep: string)
    ensures ReplaceAll(s, pat, rep) != s <==> rep != pat && (pat == [] || Contains(s, pat))
  {
    if rep == pat {
      ReplaceAllSelf(s, pat);
    } else if pat != [] && !Contains(s, pat) {
      ReplaceAllNoMatch(s, pat, rep);
    } else if |rep| == |pat| {
      MatchCountPositive(s, pat);
      ReplaceAllSameLengthChanges(s, pat, rep);
    } else {
      if pat != [] {
        MatchCountPositive(s, pat);
      }
      ReplaceAllOtherLengthChanges(s, pat, rep);
    }
  }

  /** Replacing a one-character pattern by a string free of that character
      leaves no occurrence of it. */
  lemma {:induction false} ReplaceAllRemovesChar(s: string, c: char, rep: string)
    requires c !in rep
    ensures c !in ReplaceAll(s, [c], rep)
    decreases |s|
  {
    if |s| >= 1 {
      if s[..1] == [c] {
        ReplaceAllRemovesChar(s[1..], c, rep);
      } else {
        assert s[0] != c;
        ReplaceAllRemovesChar(s[1..], c, rep);
      }
    }
  }

  /** Replacing one character by another works character by character:
      the length is kept, each occurrence of `c` becomes `d`, and every
      other character stays where it was. */
  lemma {:induction false} ReplaceAllCharwise(s: string, c: char, d: char)
    ensures |ReplaceAll(s, [c], [d])| == |s|
    ensures forall j :: 0 <= j < |s| ==> ReplaceAll(s, [c], [d])[j] == (if s[j] == c then d else s[j])
    decreases |s|
  {
    if |s| >= 1 {
      ReplaceAllCharwise(s[1..], c, d);
    }
  }

  /** Regrouping a concatenation of three strings. */
  lemma ConcatAssoc(p: string, q: string, r: string)
    ensures p + (q + r) == p + q + r
  {
  }

  /** `strings.Split(s, sep)` for a non-empty separator: the pieces between
      successive leftmost separators, always at least one. */
  function Split(s: string, sep: string): (parts: seq<string>)
    requires sep != []
    ensures |parts| >= 1
    decreases |s|
  {
    var r := IndexOf(s, sep);
    if r.None? then [s]
    else [s[..r.value]] + Split(s[r.value + |sep|..], sep)
  }

  /** The pieces put back together with `sep` between them. Neither program
      joins; this is the inverse against which `Split` is proved lossless. */
  function Join(parts: seq<string>, sep: string): string
    decreases |parts|
  {
    if parts == [] then ""
    else if |parts| == 1 then parts[0]
    else parts[0] + sep + Join(parts[1..], sep)
  }

  /** Split takes off the piece before the leftmost separator. */
  lemma SplitAtFirst(s: string, sep: string, i: nat)
    requires sep != [] && IndexOf(s, sep) == Some(i)
    ensures i + |sep| <= |s|
    ensures Split(s, sep) == [s[..i]] + Split(s[i + |sep|..], sep)
  {
    assert i + |sep| <= |s| by { assert MatchesAt(s, sep, i); }
    SplitUnfold(s, sep, i);
  }

  /** One unfolding of `Split`, proved where nothing else is in scope. */
  lemma SplitUnfold(s: string, sep: string, i: nat)
    requires sep != [] && IndexOf(s, sep) == Some(i) && i + |sep| <= |s|
    ensures Split(s, sep) == [s[..i]] + Split(s[i + |sep|..], sep)
  {
  }

  /** One unfolding of `Join` in front of a non-empty tail. */
  lemma JoinCons(x: string, tail: seq<string>, sep: string)
    requires |tail| >= 1
    ensures Join([x] + tail, sep) == x + sep + Join(tail, sep)
  {
    assert ([x] + tail)[1..] == tail;
  }

  /** Splitting loses nothing: joining the pieces back gives the text. */
  lemma {:induction false} JoinSplit(s: string, sep: string)
    requires sep != []
    ensures Join(Split(s, sep), sep) == s
    decreases |s|
  {
    var r := IndexOf(s, sep);
    if r.Some? {
      var i := r.value;
      SplitAtFirst(s, sep, i);
      var rest := s[i + |sep|..];
      JoinSplit(rest, sep);
      JoinCons(s[..i], Split(rest, sep), sep);
      assert s[i..i + |sep|] == sep by { assert MatchesAt(s, sep, i); }
      Reassemble(s, i, i + |sep|);
    }
  }

  /** A text is its three slices at `i` and `j` put back together. */
  lemma Reassemble(s: string, i: nat, j: nat)
    requires i <= j <= |s|
    ensures s == s[..i] + s[i..j] + s[j..]
  {
  }

  /** No piece contains the separator. */
  lemma {:induction false} SplitPiecesFree(s: string, sep: string)
    requires sep != []
    ensures forall k :: 0 <= k < |Split(s, sep)| ==> !Contains(Split(s, sep)[k], sep)
    decreases |s|
  {
    var r := IndexOf(s, sep);
    if r.Some? {
      var i := r.value;
      SplitAtFirst(s, sep, i);
      var rest := s[i + |sep|..];
      SplitPiecesFree(rest, sep);
      PrefixBeforeFirstFree(s, sep, i);
    }
  }

  /** The text before the leftmost match holds no match. */
  lemma PrefixBeforeFirstFree(s: string, sep: string, i: nat)
    requires sep != [] && IndexOf(s, sep) == Some(i)
    ensures !Contains(s[..i], sep)
  {
    forall j | 0 <= j <= i
      ensures !MatchesAt(s[..i], sep, j)
    {
      if j + |sep| <= i {
        assert !MatchesAt(s, sep, j);
        assert s[..i][j..j + |sep|] == s[j..j + |sep|];
      }
    }
  }

  /** A text that begins with the separator splits into an empty first piece
      followed by the pieces of the remainder. */
  lemma SplitLeadingSeparator(x: string, sep: string)
    requires sep != []
    ensures Split(sep + x, sep) == [""] + Split(x, sep)
  {
    var s := sep + x;
    assert MatchesAt(s, sep, 0);
    assert IndexOf(s, sep) == Some(0);
    assert s[|sep|..] == x;
  }
}

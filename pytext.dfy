/**
 * The few Python string operations the parsers rely on (`in`, `find`, `index`,
 * `split`, `strip`, `join`) and the character classes `\s` and `\w` of Python's
 * `re` module, restricted to ASCII.
 */
module PyText {
  import opened Wrappers

  /** `str.isspace()` and the regex class `\s`, for ASCII characters. */
  predicate IsSpace(c: char) {
    c == ' ' || c == '\t' || c == '\n' || c == '\r' || c == '\U{0B}' || c == '\U{0C}'
    || ('\U{1C}' <= c <= '\U{1F}')
  }

  /** The regex class `\w`, for ASCII characters. */
  predicate IsWordChar(c: char) {
    ('a' <= c <= 'z') || ('A' <= c <= 'Z') || ('0' <= c <= '9') || c == '_'
  }

  /** The end of the run of whitespace that starts at `i` (greedy `\s*`). */
  function SkipSpaces(s: string, i: nat): (j: nat)
    requires i <= |s|
    decreases |s| - i
    ensures i <= j <= |s|
    ensures forall k :: i <= k < j ==> IsSpace(s[k])
    ensures j == |s| || !IsSpace(s[j])
  {
    if i == |s| || !IsSpace(s[i]) then i else SkipSpaces(s, i + 1)
  }

  /** The end of the run of non-whitespace that starts at `i`. */
  function TokenEnd(s: string, i: nat): (j: nat)
    requires i <= |s|
    decreases |s| - i
    ensures i <= j <= |s|
    ensures forall k :: i <= k < j ==> !IsSpace(s[k])
    ensures j == |s| || IsSpace(s[j])
  {
    if i == |s| || IsSpace(s[i]) then i else TokenEnd(s, i + 1)
  }

  /** The end of the run of word characters that starts at `i` (greedy `\w*`). */
  function WordEnd(s: string, i: nat): (j: nat)
    requires i <= |s|
    decreases |s| - i
    ensures i <= j <= |s|
    ensures forall k :: i <= k < j ==> IsWordChar(s[k])
    ensures j == |s| || !IsWordChar(s[j])
  {
    if i == |s| || !IsWordChar(s[i]) then i else WordEnd(s, i + 1)
  }

  /** The index of the first newline at or after `i`, or `|s|` (how far `.` reaches without DOTALL). */
  function LineEnd(s: string, i: nat): (j: nat)
    requires i <= |s|
    decreases |s| - i
    ensures i <= j <= |s|
    ensures forall k :: i <= k < j ==> s[k] != '\n'
    ensures j == |s| || s[j] == '\n'
  {
    if i == |s| || s[i] == '\n' then i else LineEnd(s, i + 1)
  }

  /** A token of `str.split()`: non-empty, without whitespace. */
  predicate IsToken(t: string) {
    |t| > 0 && forall k :: 0 <= k < |t| ==> !IsSpace(t[k])
  }

  /** `s.split()`: the maximal runs of non-whitespace characters, left to right. */
  function Split(s: string): (r: seq<string>)
    decreases |s|
    ensures forall k :: 0 <= k < |r| ==> IsToken(r[k])
  {
    if s == [] then []
    else if IsSpace(s[0]) then Split(s[1..])
    else
      var j := TokenEnd(s, 0);
      [s[..j]] + Split(s[j..])
  }

  function LStrip(s: string): string
    decreases |s|
  {
    if s != [] && IsSpace(s[0]) then LStrip(s[1..]) else s
  }

  function RStrip(s: string): string
    decreases |s|
  {
    if s != [] && IsSpace(s[|s| - 1]) then RStrip(s[..|s| - 1]) else s
  }

  /** `s.strip()`: `s` without leading and trailing whitespace. */
  function Strip(s: string): (r: string)
    ensures r == [] || (!IsSpace(r[0]) && !IsSpace(r[|r| - 1]))
  {
    StripEnds(s);
    RStrip(LStrip(s))
  }

  lemma {:induction false} StripEnds(s: string)
    ensures var r := RStrip(LStrip(s)); r == [] || (!IsSpace(r[0]) && !IsSpace(r[|r| - 1]))
  {
    var l := LStrip(s);
    LStripFirst(s);
    RStripKeepsFirst(l);
  }

  lemma {:induction false} LStripFirst(s: string)
    ensures LStrip(s) == [] || !IsSpace(LStrip(s)[0])
    decreases |s|
  {
    if s != [] && IsSpace(s[0]) {
      LStripFirst(s[1..]);
    }
  }

  lemma {:induction false} RStripKeepsFirst(l: string)
    requires l == [] || !IsSpace(l[0])
    ensures var r := RStrip(l); r == [] || (!IsSpace(r[0]) && !IsSpace(r[|r| - 1]))
    ensures RStrip(l) == [] || RStrip(l)[0] == l[0]
    decreases |l|
  {
    if l != [] && IsSpace(l[|l| - 1]) {
      RStripKeepsFirst(l[..|l| - 1]);
    }
  }

  /** Appending whitespace does not change `split()`. */
  lemma {:induction false} SplitTrailingSpace(s: string, c: char)
    requires IsSpace(c)
    ensures Split(s + [c]) == Split(s)
    decreases |s|
  {
    if s == [] {
      assert Split([c]) == Split([c][1..]);
    } else if IsSpace(s[0]) {
      assert (s + [c])[1..] == s[1..] + [c];
      SplitTrailingSpace(s[1..], c);
    } else {
      var j := TokenEnd(s, 0);
      var j' := TokenEnd(s + [c], 0);
      if j < |s| {
        TokenEndAgree(s, s + [c], 0, j);
      } else {
        TokenEndAgree(s, s + [c], 0, |s|);
      }
      assert j' == j;
      assert (s + [c])[..j] == s[..j];
      assert (s + [c])[j..] == s[j..] + [c];
      SplitTrailingSpace(s[j..], c);
    }
  }

  /** Where two strings agree up to the first whitespace of one of them, the token ends agree. */
  lemma TokenEndAgree(s: string, t: string, i: nat, j: nat)
    requires i <= j <= |s| && j <= |t| && s[..j] == t[..j]
    requires forall k :: i <= k < j ==> !IsSpace(s[k])
    requires j < |t| && IsSpace(t[j])
    requires j == |s| || IsSpace(s[j])
    ensures TokenEnd(s, i) == j && TokenEnd(t, i) == j
  {
    assert forall k :: i <= k < j ==> t[k] == t[..j][k] == s[..j][k] == s[k];
  }

  /** A token followed by whitespace or by nothing is the first piece of `split()`. */
  lemma SplitTokenThen(t: string, r: string)
    requires IsToken(t) && (r == [] || IsSpace(r[0]))
    ensures Split(t + r) == [t] + Split(r)
  {
    var s := t + r;
    assert forall k :: 0 <= k < |t| ==> s[k] == t[k] && !IsSpace(s[k]);
    assert r != [] ==> s[|t|] == r[0];
    assert TokenEnd(s, 0) == |t|;
    assert s[..|t|] == t;
    assert s[|t|..] == r;
  }

  /** Leading whitespace does not change `split()`. */
  lemma SplitLeadingSpace(c: char, r: string)
    requires IsSpace(c)
    ensures Split([c] + r) == Split(r)
  {
    assert ([c] + r)[1..] == r;
  }

  /** Two tokens separated by a space and followed by whitespace or nothing are the first two pieces of `split()`. */
  lemma SplitTwoTokens(t: string, u: string, r: string)
    requires IsToken(t) && IsToken(u) && (r == [] || IsSpace(r[0]))
    ensures Split(t + (" " + u + r)) == [t] + ([u] + Split(r))
  {
    SplitSpaceToken(u, r);
    SplitTokenThen(t, " " + u + r);
  }

  lemma SplitSpaceToken(u: string, r: string)
    requires IsToken(u) && (r == [] || IsSpace(r[0]))
    ensures Split(" " + u + r) == [u] + Split(r)
  {
    assert " " + u + r == [' '] + (u + r);
    SplitLeadingSpace(' ', u + r);
    SplitTokenThen(u, r);
  }

  /** Skipping a run of whitespace does not change `split()`. */
  lemma {:induction false} SplitSkipSpaces(s: string, i: nat)
    requires i <= |s|
    ensures Split(s[i..]) == Split(s[SkipSpaces(s, i)..])
    decreases |s| - i
  {
    if i < |s| && IsSpace(s[i]) {
      assert s[i..] == [s[i]] + s[i + 1..];
      SplitLeadingSpace(s[i], s[i + 1..]);
      SplitSkipSpaces(s, i + 1);
    }
  }

  lemma {:induction false} TokenEndShift(c: char, x: string, k: nat)
    requires k <= |x|
    ensures TokenEnd([c] + x, k + 1) == TokenEnd(x, k) + 1
    decreases |x| - k
  {
    if k < |x| && !IsSpace(x[k]) {
      TokenEndShift(c, x, k + 1);
    }
  }

  /**
   * A non-whitespace character put in front of a text joins its first piece
   * of `split()` when the text starts with a token, and is a piece of its own
   * otherwise.
   */
  lemma SplitConsChar(c: char, x: string)
    requires !IsSpace(c)
    ensures Split([c] + x) ==
      if x != [] && !IsSpace(x[0]) then [[c] + Split(x)[0]] + Split(x)[1..] else [[c]] + Split(x)
  {
    var s := [c] + x;
    TokenEndShift(c, x, 0);
    var j0 := TokenEnd(x, 0);
    assert TokenEnd(s, 0) == TokenEnd(s, 1) == j0 + 1;
    assert s[..j0 + 1] == [c] + x[..j0];
    assert s[j0 + 1..] == x[j0..];
  }

  /** Texts with whitespace at the same places and the same other characters split alike. */
  lemma {:induction false} SplitSameSpaces(s: string, t: string)
    requires |s| == |t|
    requires forall k :: 0 <= k < |s| ==> (IsSpace(s[k]) <==> IsSpace(t[k]))
    requires forall k :: 0 <= k < |s| ==> !IsSpace(s[k]) ==> s[k] == t[k]
    ensures Split(s) == Split(t)
    decreases |s|
  {
    if s != [] {
      SplitSameSpaces(s[1..], t[1..]);
      assert s == [s[0]] + s[1..] && t == [t[0]] + t[1..];
      if IsSpace(s[0]) {
        SplitLeadingSpace(s[0], s[1..]);
        SplitLeadingSpace(t[0], t[1..]);
      } else {
        SplitConsChar(s[0], s[1..]);
        SplitConsChar(t[0], t[1..]);
      }
    }
  }

  /** `s.strip().split()` is `s.split()`. */
  lemma {:induction false} SplitStrip(s: string)
    ensures Split(Strip(s)) == Split(s)
  {
    SplitLStrip(s);
    SplitRStrip(LStrip(s));
  }

  lemma {:induction false} SplitLStrip(s: string)
    ensures Split(LStrip(s)) == Split(s)
    decreases |s|
  {
    if s != [] && IsSpace(s[0]) {
      SplitLStrip(s[1..]);
    }
  }

  lemma {:induction false} SplitRStrip(s: string)
    ensures Split(RStrip(s)) == Split(s)
    decreases |s|
  {
    if s != [] && IsSpace(s[|s| - 1]) {
      var p := s[..|s| - 1];
      assert s == p + [s[|s| - 1]];
      SplitTrailingSpace(p, s[|s| - 1]);
      SplitRStrip(p);
    }
  }

  /** `sep.join(xs)`. */
  function Join(sep: string, xs: seq<string>): string
    decreases |xs|
  {
    if xs == [] then ""
    else if |xs| == 1 then xs[0]
    else xs[0] + sep + Join(sep, xs[1..])
  }

  /** Splitting a space-joined list of tokens gives the tokens back. */
  lemma {:induction false} SplitJoin(toks: seq<string>)
    requires forall k :: 0 <= k < |toks| ==> IsToken(toks[k])
    ensures Split(Join(" ", toks)) == toks
    decreases |toks|
  {
    if toks == [] {
    } else if |toks| == 1 {
      var t := toks[0];
      assert TokenEnd(t, 0) == |t|;
      assert t[|t|..] == [];
      assert t[..|t|] == t;
    } else {
      var t := toks[0];
      var rest := Join(" ", toks[1..]);
      var s := t + " " + rest;
      assert s == Join(" ", toks);
      assert forall k :: 0 <= k < |t| ==> s[k] == t[k];
      assert s[|t|] == ' ';
      assert TokenEnd(s, 0) == |t|;
      assert s[..|t|] == t;
      assert s[|t|..] == " " + rest;
      assert Split(" " + rest) == Split(rest) by {
        assert (" " + rest)[1..] == rest;
      }
      SplitJoin(toks[1..]);
      assert Split(s) == [t] + toks[1..];
    }
  }

  /** Where the `k`-th piece starts in `sep.join(xs)`. */
  function JoinOffset(sep: string, xs: seq<string>, k: nat): nat
    requires k <= |xs|
    decreases k
  {
    if k == 0 then 0 else |xs[0]| + |sep| + JoinOffset(sep, xs[1..], k - 1)
  }

  /** Every piece appears verbatim in `sep.join(xs)`, at its offset. */
  lemma {:induction false} JoinSlice(sep: string, xs: seq<string>, k: nat)
    requires k < |xs|
    ensures JoinOffset(sep, xs, k) + |xs[k]| <= |Join(sep, xs)|
    ensures Join(sep, xs)[JoinOffset(sep, xs, k)..JoinOffset(sep, xs, k) + |xs[k]|] == xs[k]
    decreases k
  {
    var j := Join(sep, xs);
    if |xs| == 1 {
      assert j == xs[0];
    } else {
      var rest := Join(sep, xs[1..]);
      assert j == xs[0] + sep + rest;
      if k == 0 {
        assert j[..|xs[0]|] == xs[0];
      } else {
        JoinSlice(sep, xs[1..], k - 1);
        var o := JoinOffset(sep, xs[1..], k - 1);
        var d := |xs[0]| + |sep|;
        assert j[d + o..d + o + |xs[k]|] == rest[o..o + |xs[k]|];
      }
    }
  }

  /** The index of the first `c` in `s`, or `|s|`. */
  function CharEnd(s: string, c: char, i: nat): (j: nat)
    requires i <= |s|
    decreases |s| - i
    ensures i <= j <= |s|
    ensures forall k :: i <= k < j ==> s[k] != c
    ensures j == |s| || s[j] == c
  {
    if i == |s| || s[i] == c then i else CharEnd(s, c, i + 1)
  }

  /** `s.split(c)` for a one-character separator: always at least one piece. */
  function SplitOn(s: string, c: char): (r: seq<string>)
    decreases |s|
    ensures |r| >= 1
    ensures forall k :: 0 <= k < |r| ==> c !in r[k]
  {
    var j := CharEnd(s, c, 0);
    if j == |s| then [s] else [s[..j]] + SplitOn(s[j + 1..], c)
  }

  /** `c.join(xs)` split on `c` gives `xs` back when no piece contains `c`. */
  lemma {:induction false} SplitOnJoin(xs: seq<string>, c: char)
    requires |xs| >= 1
    requires forall k :: 0 <= k < |xs| ==> c !in xs[k]
    ensures SplitOn(Join([c], xs), c) == xs
    decreases |xs|
  {
    var x := xs[0];
    if |xs| == 1 {
      assert CharEnd(x, c, 0) == |x|;
    } else {
      var rest := Join([c], xs[1..]);
      var s := x + [c] + rest;
      assert s == Join([c], xs);
      assert forall k :: 0 <= k < |x| ==> s[k] == x[k] && x[k] != c;
      assert s[|x|] == c;
      assert CharEnd(s, c, 0) == |x|;
      assert s[..|x|] == x;
      assert s[|x| + 1..] == rest;
      SplitOnJoin(xs[1..], c);
    }
  }
}

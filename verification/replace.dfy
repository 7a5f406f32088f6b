/** Literal replace-all, the only string rewriting the index rewriter uses.

    `String.prototype.replaceAll` with a string pattern and `replace` with a
    global regex made of literal characters behave alike: they scan left to
    right, replace each match, and resume after it, so matches never overlap.
    With the `i` flag a pattern of ASCII characters matches regardless of ASCII
    case (the regex canonicalisation never maps a non-ASCII character onto an
    ASCII one), which is `IgnoreCase` here. */
module Replace {

  datatype Mode = Exact | IgnoreCase

  function Upper(c: char): char {
    if 'a' <= c <= 'z' then (c as int - 32) as char else c
  }

  predicate CharMatch(c: char, p: char, mode: Mode) {
    match mode
    case Exact => c == p
    case IgnoreCase => Upper(c) == Upper(p)
  }

  /** `pat` matches `s` at position `i`. */
  predicate MatchAt(s: string, i: nat, pat: string, mode: Mode) {
    i + |pat| <= |s| && forall k :: 0 <= k < |pat| ==> CharMatch(s[i + k], pat[k], mode)
  }

  predicate Occurs(s: string, pat: string, mode: Mode) {
    exists i: nat | i <= |s| :: MatchAt(s, i, pat, mode)
  }

  /** No character of `rep` can stand for any character of `pat`. */
  predicate Disjoint(rep: string, pat: string, mode: Mode) {
    forall j, k :: 0 <= j < |rep| && 0 <= k < |pat| ==> !CharMatch(rep[j], pat[k], mode)
  }

  /** `rep` cannot help form an occurrence of `q`: no window starting inside
      `rep` can match, and a window that started earlier and runs into `rep`
      is stopped by its first or second character. Weaker than `Disjoint`:
      it admits "-1" against patterns that hold a '-' but end in '}' and
      have no digit. */
  predicate CannotForm(rep: string, q: string, mode: Mode) {
    && |rep| > 0 && |q| > 0
    && (forall j :: 0 <= j < |rep| ==> !CharMatch(rep[j], q[0], mode))
    && (forall p :: 0 < p < |q| && CharMatch(rep[0], q[p], mode) ==>
          1 < |rep| && p + 1 < |q| && !CharMatch(rep[1], q[p + 1], mode))
  }

  lemma DisjointCannotForm(rep: string, q: string, mode: Mode)
    requires |rep| > 0 && |q| > 0 && Disjoint(rep, q, mode)
    ensures CannotForm(rep, q, mode)
  {
  }

  function ReplaceAll(s: string, pat: string, rep: string, mode: Mode): string
    requires |pat| > 0
    decreases |s|
  {
    if |s| < |pat| then s
    else if MatchAt(s, 0, pat, mode) then rep + ReplaceAll(s[|pat|..], pat, rep, mode)
    else [s[0]] + ReplaceAll(s[1..], pat, rep, mode)
  }

  lemma MatchShift(s: string, d: nat, i: nat, pat: string, mode: Mode)
    requires d <= |s|
    ensures MatchAt(s, i + d, pat, mode) <==> MatchAt(s[d..], i, pat, mode)
  {
    if MatchAt(s[d..], i, pat, mode) {
      forall k | 0 <= k < |pat| ensures CharMatch(s[i + d + k], pat[k], mode) {
        assert s[d..][i + k] == s[i + d + k];
      }
    }
  }

  /** A value with no match is returned unchanged. */
  lemma {:induction false} ReplaceWithoutMatch(s: string, pat: string, rep: string, mode: Mode)
    requires |pat| > 0
    requires !Occurs(s, pat, mode)
    ensures ReplaceAll(s, pat, rep, mode) == s
    decreases |s|
  {
    if |s| >= |pat| {
      assert !MatchAt(s, 0, pat, mode);
      forall i: nat | i <= |s[1..]| ensures !MatchAt(s[1..], i, pat, mode) {
        MatchShift(s, 1, i, pat, mode);
      }
      ReplaceWithoutMatch(s[1..], pat, rep, mode);
      assert [s[0]] + s[1..] == s;
    }
  }

  /** Replacing into a non-empty value never yields the empty string. */
  lemma {:induction false} ReplaceKeepsNonEmpty(s: string, pat: string, rep: string, mode: Mode)
    requires |pat| > 0 && |rep| > 0
    ensures |ReplaceAll(s, pat, rep, mode)| == 0 <==> |s| == 0
    decreases |s|
  {
  }

  /** Up to the first replacement, the output copies the input; from there on
      it shows the replacement's first characters. */
  lemma {:induction false} PrefixAgreesOrRep(t: string, pat: string, rep: string, mode: Mode, n: nat)
    requires |pat| > 0 && |rep| > 0
    requires n <= |ReplaceAll(t, pat, rep, mode)|
    ensures || (n <= |t| && ReplaceAll(t, pat, rep, mode)[..n] == t[..n])
            || (exists j :: 0 <= j < n && ReplaceAll(t, pat, rep, mode)[j] == rep[0]
                  && (1 < |rep| ==> j + 1 < |ReplaceAll(t, pat, rep, mode)| && ReplaceAll(t, pat, rep, mode)[j + 1] == rep[1]))
    decreases |t|
  {
    var rt := ReplaceAll(t, pat, rep, mode);
    if n == 0 || |t| < |pat| {
    } else if MatchAt(t, 0, pat, mode) {
      assert rt[0] == rep[0];
      assert 1 < |rep| ==> rt[1] == rep[1];
    } else {
      var u := t[1..];
      var ru := ReplaceAll(u, pat, rep, mode);
      assert rt == [t[0]] + ru;
      PrefixAgreesOrRep(u, pat, rep, mode, n - 1);
      if n - 1 <= |u| && ru[..n - 1] == u[..n - 1] {
        assert rt[..n] == [t[0]] + ru[..n - 1];
        assert t[..n] == [t[0]] + u[..n - 1];
      } else {
        var j :| 0 <= j < n - 1 && ru[j] == rep[0] && (1 < |rep| ==> j + 1 < |ru| && ru[j + 1] == rep[1]);
        assert rt[j + 1] == rep[0];
        assert 1 < |rep| ==> rt[j + 2] == rep[1];
      }
    }
  }

  /** A replacement block followed by text without an occurrence of `q` has no
      occurrence of `q`, when the replacement cannot help form one. */
  lemma PrependReplacement(rep: string, rt: string, q: string, qmode: Mode)
    requires |q| > 0
    requires CannotForm(rep, q, qmode)
    requires !Occurs(rt, q, qmode)
    ensures !Occurs(rep + rt, q, qmode)
  {
    var r := rep + rt;
    forall i: nat | i <= |r| ensures !MatchAt(r, i, q, qmode) {
      if i < |rep| {
        if i + |q| <= |r| {
          assert r[i + 0] == rep[i];
          assert !CharMatch(r[i + 0], q[0], qmode);
        }
      } else {
        assert r[|rep|..] == rt;
        MatchShift(r, |rep|, i - |rep|, q, qmode);
      }
    }
  }

  /** One copied character before text without an occurrence of `q`. */
  lemma PrependChar(c: char, rt: string, q: string, qmode: Mode)
    requires !MatchAt([c] + rt, 0, q, qmode)
    requires !Occurs(rt, q, qmode)
    ensures !Occurs([c] + rt, q, qmode)
  {
    var r := [c] + rt;
    forall i: nat | 0 < i <= |r| ensures !MatchAt(r, i, q, qmode) {
      assert r[1..] == rt;
      MatchShift(r, 1, i - 1, q, qmode);
    }
  }

  /** The window at the start of `[s[0]] + ReplaceAll(s[1..])` is not `q` when
      the window at the start of `s` is not. */
  lemma HeadWindow(s: string, pat: string, rep: string, mode: Mode, q: string, qmode: Mode)
    requires |pat| > 0 && |rep| > 0 && |q| > 0 && |s| > 0
    requires CannotForm(rep, q, qmode)
    requires !MatchAt(s, 0, q, qmode)
    ensures !MatchAt([s[0]] + ReplaceAll(s[1..], pat, rep, mode), 0, q, qmode)
  {
    var t := s[1..];
    var rt := ReplaceAll(t, pat, rep, mode);
    var r := [s[0]] + rt;
    if |q| <= |r| {
      PrefixAgreesOrRep(t, pat, rep, mode, |q| - 1);
      if |q| - 1 <= |t| && rt[..|q| - 1] == t[..|q| - 1] {
        var k :| 0 <= k < |q| && !CharMatch(s[0 + k], q[k], qmode);
        if k > 0 {
          assert r[k] == rt[..|q| - 1][k - 1];
        }
        assert !CharMatch(r[0 + k], q[k], qmode);
      } else {
        var j :| 0 <= j < |q| - 1 && rt[j] == rep[0] && (1 < |rep| ==> j + 1 < |rt| && rt[j + 1] == rep[1]);
        assert r[0 + (j + 1)] == rep[0];
        if CharMatch(rep[0], q[j + 1], qmode) {
          assert r[0 + (j + 2)] == rep[1];
          assert !CharMatch(r[0 + (j + 2)], q[j + 2], qmode);
        }
      }
    }
  }

  /** Every match is replaced: when the replacement cannot help form the
      pattern, the pattern no longer occurs in the output. */
  lemma {:induction false} ReplaceLeavesNoMatch(s: string, pat: string, rep: string, mode: Mode)
    requires |pat| > 0 && |rep| > 0
    requires CannotForm(rep, pat, mode)
    ensures !Occurs(ReplaceAll(s, pat, rep, mode), pat, mode)
    decreases |s|
  {
    if |s| < |pat| {
    } else if MatchAt(s, 0, pat, mode) {
      var t := s[|pat|..];
      ReplaceLeavesNoMatch(t, pat, rep, mode);
      PrependReplacement(rep, ReplaceAll(t, pat, rep, mode), pat, mode);
    } else {
      var t := s[1..];
      ReplaceLeavesNoMatch(t, pat, rep, mode);
      HeadWindow(s, pat, rep, mode, pat, mode);
      PrependChar(s[0], ReplaceAll(t, pat, rep, mode), pat, mode);
    }
  }

  /** Replacing one pattern cannot create an occurrence of another pattern that
      the replacement cannot help form. */
  lemma {:induction false} ReplaceKeepsAbsent(s: string, pat: string, rep: string, mode: Mode, q: string, qmode: Mode)
    requires |pat| > 0 && |rep| > 0 && |q| > 0
    requires CannotForm(rep, q, qmode)
    requires !Occurs(s, q, qmode)
    ensures !Occurs(ReplaceAll(s, pat, rep, mode), q, qmode)
    decreases |s|
  {
    if |s| < |pat| {
    } else if MatchAt(s, 0, pat, mode) {
      var t := s[|pat|..];
      forall i: nat | i <= |t| ensures !MatchAt(t, i, q, qmode) {
        MatchShift(s, |pat|, i, q, qmode);
      }
      ReplaceKeepsAbsent(t, pat, rep, mode, q, qmode);
      PrependReplacement(rep, ReplaceAll(t, pat, rep, mode), q, qmode);
    } else {
      var t := s[1..];
      forall i: nat | i <= |t| ensures !MatchAt(t, i, q, qmode) {
        MatchShift(s, 1, i, q, qmode);
      }
      ReplaceKeepsAbsent(t, pat, rep, mode, q, qmode);
      assert !MatchAt(s, 0, q, qmode);
      HeadWindow(s, pat, rep, mode, q, qmode);
      PrependChar(s[0], ReplaceAll(t, pat, rep, mode), q, qmode);
    }
  }
}

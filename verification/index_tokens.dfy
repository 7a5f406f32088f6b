/** The index-token rewriter (`addIndex`).

    An element marked `s-index="a,b"` names attributes whose values may hold
    counter tokens. Every token of the variant's table is replaced, in table
    order, by the decimal form of the counter plus the token's offset. The
    bundled engine uses scope-qualified tokens matched exactly; the older
    source and the end-to-end mock use `{{index}}` and `{{index++}}` matched
    regardless of ASCII case, and know no decrement token. */
module IndexTokens {
  import opened Results
  import opened Text
  import opened Replace
  import opened Dom

  /** A token, how it is matched, and what it adds to the counter. */
  datatype Token = Token(text: string, mode: Mode, offset: int)

  /** `{{id:index` followed by `suffix`. */
  function BundledToken(id: string, suffix: string): string {
    "{{" + id + ":index" + suffix
  }

  /** `{{id:index}}`, `{{id:index++}}`, `{{id:index--}}`, replaced in that order. */
  function BundledTable(id: string): (r: seq<Token>)
    ensures ValidTable(r) && |r| == 3
  {
    [ Token(BundledToken(id, "}}"), Exact, 0),
      Token(BundledToken(id, "++}}"), Exact, 1),
      Token(BundledToken(id, "--}}"), Exact, -1) ]
  }

  /** `/{{index}}/gi` then `/{{index\+\+}}/gi`. */
  const LegacyTable: seq<Token> := [Token("{{index}}", IgnoreCase, 0), Token("{{index++}}", IgnoreCase, 1)]

  lemma LegacyTableValid()
    ensures ValidTable(LegacyTable)
  {
  }

  predicate ValidTable(table: seq<Token>) {
    forall i :: 0 <= i < |table| ==> |table[i].text| > 0
  }

  /** `(currentIndex + offset).toString()`: the digits of the sum, after a
      minus sign when the sum is negative (`{{id:index--}}` at counter 0). */
  function Substitution(t: Token, counter: nat): (r: string)
    ensures |r| > 0
    ensures counter + t.offset >= 0 ==> AllDigits(r) && ParseDecimal(r) == counter + t.offset
    ensures counter + t.offset < 0 ==>
      |r| > 1 && r[0] == '-' && AllDigits(r[1..]) && ParseDecimal(r[1..]) == -(counter + t.offset)
  {
    var v := counter + t.offset;
    if v >= 0 then
      ParseDecimalOfDecimal(v);
      IntDecimal(v)
    else
      var r := IntDecimal(v);
      assert r[1..] == Decimal(-v);
      ParseDecimalOfDecimal(-v);
      r
  }

  /** Replaces every token of the table in turn. A non-empty value never
      rewrites to the empty string, since every substitution is non-empty. */
  function RewriteValue(v: string, table: seq<Token>, counter: nat): (r: string)
    requires ValidTable(table)
    ensures r == "" <==> v == ""
    decreases |table|
  {
    if table == [] then v
    else
      var t := table[0];
      var w := ReplaceAll(v, t.text, Substitution(t, counter), t.mode);
      ReplaceKeepsNonEmpty(v, t.text, Substitution(t, counter), t.mode);
      RewriteValue(w, table[1..], counter)
  }

  /** No substitution can help form any token of the table. */
  predicate NoReintroduction(table: seq<Token>, counter: nat) {
    forall i, j :: 0 <= i < |table| && 0 <= j < |table| ==>
      CannotForm(Substitution(table[i], counter), table[j].text, table[j].mode)
  }

  /** A value with no token is left as it is. */
  lemma {:induction false} RewriteWithoutTokens(v: string, table: seq<Token>, counter: nat)
    requires ValidTable(table)
    requires forall j :: 0 <= j < |table| ==> !Occurs(v, table[j].text, table[j].mode)
    ensures RewriteValue(v, table, counter) == v
    decreases |table|
  {
    if table != [] {
      ReplaceWithoutMatch(v, table[0].text, Substitution(table[0], counter), table[0].mode);
      assert forall j :: 0 <= j < |table[1..]| ==> table[1..][j] == table[j + 1];
      RewriteWithoutTokens(v, table[1..], counter);
    }
  }

  /** Later replacements cannot bring back a pattern none of their substitutions can supply. */
  lemma {:induction false} RewriteKeepsAbsent(v: string, table: seq<Token>, counter: nat, q: string, qmode: Mode)
    requires ValidTable(table) && |q| > 0
    requires forall i :: 0 <= i < |table| ==> CannotForm(Substitution(table[i], counter), q, qmode)
    requires !Occurs(v, q, qmode)
    ensures !Occurs(RewriteValue(v, table, counter), q, qmode)
    decreases |table|
  {
    if table != [] {
      var t := table[0];
      ReplaceKeepsAbsent(v, t.text, Substitution(t, counter), t.mode, q, qmode);
      assert forall i :: 0 <= i < |table[1..]| ==> table[1..][i] == table[i + 1];
      RewriteKeepsAbsent(ReplaceAll(v, t.text, Substitution(t, counter), t.mode), table[1..], counter, q, qmode);
    }
  }

  /** Every token is resolved: none survives in the rewritten value. */
  lemma {:induction false} NoTokenSurvives(v: string, table: seq<Token>, counter: nat)
    requires ValidTable(table) && NoReintroduction(table, counter)
    ensures forall j :: 0 <= j < |table| ==> !Occurs(RewriteValue(v, table, counter), table[j].text, table[j].mode)
    decreases |table|
  {
    if table != [] {
      var t := table[0];
      var w := ReplaceAll(v, t.text, Substitution(t, counter), t.mode);
      var rest := table[1..];
      assert forall i :: 0 <= i < |rest| ==> rest[i] == table[i + 1];
      assert CannotForm(Substitution(t, counter), t.text, t.mode);
      ReplaceLeavesNoMatch(v, t.text, Substitution(t, counter), t.mode);
      RewriteKeepsAbsent(w, rest, counter, t.text, t.mode);
      NoTokenSurvives(w, rest, counter);
    }
  }

  /** Rewriting a second time changes nothing. */
  lemma RewriteIdempotent(v: string, table: seq<Token>, counter: nat)
    requires ValidTable(table) && NoReintroduction(table, counter)
    ensures RewriteValue(RewriteValue(v, table, counter), table, counter) == RewriteValue(v, table, counter)
  {
    NoTokenSurvives(v, table, counter);
    RewriteWithoutTokens(RewriteValue(v, table, counter), table, counter);
  }

  predicate DigitFree(s: string) {
    forall i :: 0 <= i < |s| ==> !IsDigit(s[i])
  }

  lemma DigitsDisjoint(rep: string, pat: string, mode: Mode)
    requires AllDigits(rep) && DigitFree(pat)
    ensures Disjoint(rep, pat, mode)
  {
    forall j, k | 0 <= j < |rep| && 0 <= k < |pat| ensures !CharMatch(rep[j], pat[k], mode) {
      assert Upper(rep[j]) == rep[j];
    }
  }

  lemma DigitFreeConcat(a: string, b: string)
    requires DigitFree(a) && DigitFree(b)
    ensures DigitFree(a + b)
  {
    forall i | 0 <= i < |a + b| ensures !IsDigit((a + b)[i]) {
      if i < |a| { assert (a + b)[i] == a[i]; } else { assert (a + b)[i] == b[i - |a|]; }
    }
  }

  /** The legacy tokens can never be reintroduced by a substitution. */
  lemma LegacyNoReintroduction(counter: nat)
    ensures ValidTable(LegacyTable) && NoReintroduction(LegacyTable, counter)
  {
    var p0 := LegacyTable[0].text;
    var p1 := LegacyTable[1].text;
    assert DigitFree(p0) by {
      forall i | 0 <= i < |p0| ensures !IsDigit(p0[i]) {
        assert p0[i] in "{index}";
      }
    }
    assert DigitFree(p1) by {
      forall i | 0 <= i < |p1| ensures !IsDigit(p1[i]) {
        assert p1[i] in "{index+}";
      }
    }
    forall i, j | 0 <= i < 2 && 0 <= j < 2
      ensures CannotForm(Substitution(LegacyTable[i], counter), LegacyTable[j].text, LegacyTable[j].mode)
    {
      DigitsDisjoint(Substitution(LegacyTable[i], counter), LegacyTable[j].text, LegacyTable[j].mode);
      DisjointCannotForm(Substitution(LegacyTable[i], counter), LegacyTable[j].text, LegacyTable[j].mode);
    }
  }

  /** "-1" cannot help form a digit-free pattern that opens with '{' and
      closes with '}': a window holding the minus sign either ends there,
      where the pattern has '}', or goes on to the digit. */
  lemma MinusOneCannotForm(rep: string, q: string)
    requires |rep| > 1 && rep[0] == '-' && AllDigits(rep[1..])
    requires |q| > 0 && q[0] == '{' && q[|q| - 1] == '}' && DigitFree(q)
    ensures CannotForm(rep, q, Exact)
  {
    forall j | 0 <= j < |rep| ensures rep[j] != q[0] {
      if j > 0 { assert rep[j] == rep[1..][j - 1]; }
    }
    assert IsDigit(rep[1..][0]);
  }

  /** The bundled tokens cannot be reintroduced at any counter, `index--` at
      counter 0 included, provided the identifier has no digit. An
      identifier with a digit can be completed by a substituted number
      (`DigitIdentifierReintroduces`). */
  lemma BundledNoReintroduction(id: string, counter: nat)
    requires DigitFree(id)
    ensures ValidTable(BundledTable(id)) && NoReintroduction(BundledTable(id), counter)
  {
    var table := BundledTable(id);
    var all := "{{:index}}++}}--}}";
    assert forall c :: c in all ==> !IsDigit(c) by {
      forall c | c in all ensures !IsDigit(c) {
        assert c in "{}:index+-";
      }
    }
    assert DigitFree("{{") && DigitFree(":index") && DigitFree("}}") && DigitFree("++}}") && DigitFree("--}}") by {
      assert forall i :: 0 <= i < 2 ==> "{{"[i] in all;
      assert forall i :: 0 <= i < 6 ==> ":index"[i] in all;
      assert forall i :: 0 <= i < 2 ==> "}}"[i] in all;
      assert forall i :: 0 <= i < 4 ==> "++}}"[i] in all;
      assert forall i :: 0 <= i < 4 ==> "--}}"[i] in all;
    }
    DigitFreeConcat("{{", id);
    DigitFreeConcat("{{" + id, ":index");
    DigitFreeConcat("{{" + id + ":index", "}}");
    DigitFreeConcat("{{" + id + ":index", "++}}");
    DigitFreeConcat("{{" + id + ":index", "--}}");
    forall j | 0 <= j < 3 ensures table[j].text[0] == '{' && table[j].text[|table[j].text| - 1] == '}' {
    }
    forall i, j | 0 <= i < 3 && 0 <= j < 3
      ensures CannotForm(Substitution(table[i], counter), table[j].text, table[j].mode)
    {
      var rep := Substitution(table[i], counter);
      if counter + table[i].offset >= 0 {
        DigitsDisjoint(rep, table[j].text, table[j].mode);
        DisjointCannotForm(rep, table[j].text, table[j].mode);
      } else {
        MinusOneCannotForm(rep, table[j].text);
      }
    }
  }

  /** A match preceded by text where no window matches is replaced in place,
      and text after it with no match is kept. */
  lemma {:induction false} ReplaceInside(x: string, tok: string, y: string, rep: string, mode: Mode)
    requires |tok| > 0 && MatchAt(tok, 0, tok, mode)
    requires forall i :: 0 <= i < |x| ==> !MatchAt(x + tok + y, i, tok, mode)
    requires !Occurs(y, tok, mode)
    ensures ReplaceAll(x + tok + y, tok, rep, mode) == x + rep + y
    decreases |x|
  {
    var s := x + tok + y;
    if x == [] {
      assert s == tok + y;
      assert MatchAt(s, 0, tok, mode) by {
        forall k | 0 <= k < |tok| ensures CharMatch(s[0 + k], tok[k], mode) { assert s[k] == tok[k]; }
      }
      assert s[|tok|..] == y;
      ReplaceWithoutMatch(y, tok, rep, mode);
    } else {
      assert !MatchAt(s, 0, tok, mode);
      assert s[1..] == x[1..] + tok + y;
      forall i | 0 <= i < |x[1..]| ensures !MatchAt(x[1..] + tok + y, i, tok, mode) {
        MatchShift(s, 1, i, tok, mode);
      }
      ReplaceInside(x[1..], tok, y, rep, mode);
      assert [x[0]] + (x[1..] + rep + y) == x + rep + y;
    }
  }

  lemma ZeroTokenSpelling()
    ensures BundledTable("0")[0].text == "{{0:index}}"
    ensures |BundledTable("0")[1].text| == 13 && |BundledTable("0")[2].text| == 13
    ensures "{{" + "0" + ":index}}" == "{{0:index}}"
    ensures "{{" + "{{0:index}}" + ":index}}" == "{{{{0:index}}:index}}"
  {
  }

  /** Why the identifier must be digit-free: with the identifier "0" the
      value `{{{{0:index}}:index}}` rewrites, at counter 0, to a token of the
      table itself, which the source leaves in the attribute. */
  lemma DigitIdentifierReintroduces()
    ensures var table := BundledTable("0");
      var v := RewriteValue("{{{{0:index}}:index}}", table, 0);
      v == "{{0:index}}" && Occurs(v, table[0].text, Exact)
  {
    ZeroTokenSpelling();
    var table := BundledTable("0");
    var tok := table[0].text;
    var x := "{{";
    var y := ":index}}";
    var s := x + tok + y;
    assert tok[2] == '0';
    forall i | 0 <= i < |x| ensures !MatchAt(s, i, tok, Exact) {
      assert s[i + 2] == '{';
    }
    assert BraceFree(y) by {
      forall i | 0 <= i < |y| ensures y[i] != '{' { assert y[i] in ":index}"; }
    }
    BraceFreeNoOccurs(y, tok, Exact);
    assert MatchAt(tok, 0, tok, Exact);
    ReplaceInside(x, tok, y, "0", Exact);
    assert Substitution(table[0], 0) == "0";
    assert RewriteValue(s, table, 0) == RewriteValue(tok, table[1..], 0);
    assert RewriteValue(tok, table[1..], 0) == RewriteValue(tok, table[2..], 0) == RewriteValue(tok, [], 0);
  }

  // ---- Single-token rewriting --------------------------------------------

  predicate BraceFree(s: string) {
    forall i :: 0 <= i < |s| ==> s[i] != '{'
  }

  lemma OnlyBraceMatchesBrace(c: char, mode: Mode)
    requires CharMatch(c, '{', mode)
    ensures c == '{'
  {
  }

  lemma BraceFreeConcat(a: string, b: string)
    requires BraceFree(a) && BraceFree(b)
    ensures BraceFree(a + b)
  {
    forall i | 0 <= i < |a + b| ensures (a + b)[i] != '{' {
      if i < |a| { assert (a + b)[i] == a[i]; } else { assert (a + b)[i] == b[i - |a|]; }
    }
  }

  /** A substitution never holds a brace. */
  lemma SubstitutionBraceFree(t: Token, counter: nat)
    ensures BraceFree(Substitution(t, counter))
  {
    var r := Substitution(t, counter);
    forall i | 0 <= i < |r| ensures r[i] != '{' {
      if counter + t.offset < 0 {
        if i > 0 { assert r[i] == r[1..][i - 1]; }
      }
    }
  }

  /** A pattern opening with a brace cannot occur in brace-free text. */
  lemma BraceFreeNoOccurs(s: string, pat: string, mode: Mode)
    requires |pat| > 0 && pat[0] == '{' && BraceFree(s)
    ensures !Occurs(s, pat, mode)
  {
    forall i: nat | i <= |s| ensures !MatchAt(s, i, pat, mode) {
      if i + |pat| <= |s| {
        if CharMatch(s[i + 0], pat[0], mode) {
          OnlyBraceMatchesBrace(s[i + 0], mode);
        }
      }
    }
  }

  /** A match at the very start is replaced and the rest is processed on. */
  lemma ReplaceLeadingMatch(x: string, b: string, pat: string, rep: string, mode: Mode)
    requires |pat| > 0 && |x| == |pat| && MatchAt(x, 0, pat, mode)
    ensures ReplaceAll(x + b, pat, rep, mode) == rep + ReplaceAll(b, pat, rep, mode)
  {
    var s := x + b;
    assert MatchAt(s, 0, pat, mode) by {
      forall k | 0 <= k < |pat| ensures CharMatch(s[0 + k], pat[k], mode) {
        assert s[k] == x[k];
      }
    }
    assert s[|pat|..] == b;
  }

  /** A character that cannot start a match is copied over. */
  lemma ReplaceLeadingClear(c: char, t: string, pat: string, rep: string, mode: Mode)
    requires |pat| > 0 && !CharMatch(c, pat[0], mode)
    ensures ReplaceAll([c] + t, pat, rep, mode) == [c] + ReplaceAll(t, pat, rep, mode)
  {
    var s := [c] + t;
    assert !MatchAt(s, 0, pat, mode);
    assert s[1..] == t;
  }

  /** A match standing after text that cannot start one is replaced in place. */
  lemma {:induction false} ReplaceAfterClearPrefix(a: string, x: string, b: string, pat: string, rep: string, mode: Mode)
    requires |pat| > 0 && |x| == |pat| && MatchAt(x, 0, pat, mode)
    requires forall i :: 0 <= i < |a| ==> !CharMatch(a[i], pat[0], mode)
    ensures ReplaceAll(a + x + b, pat, rep, mode) == a + rep + ReplaceAll(b, pat, rep, mode)
    decreases |a|
  {
    if a == [] {
      assert a + x + b == x + b;
      ReplaceLeadingMatch(x, b, pat, rep, mode);
    } else {
      var t := a[1..] + x + b;
      assert a + x + b == [a[0]] + t;
      ReplaceLeadingClear(a[0], t, pat, rep, mode);
      ReplaceAfterClearPrefix(a[1..], x, b, pat, rep, mode);
      assert [a[0]] + (a[1..] + rep + ReplaceAll(b, pat, rep, mode)) == a + rep + ReplaceAll(b, pat, rep, mode);
    }
  }

  /** A token `x` between brace-free text holds no occurrence of a different
      brace-opened pattern, given where each of its two candidate windows
      (at its first and second character) disagrees with the pattern. */
  lemma TokenNotAmong(a: string, x: string, b: string, pat: string, mode: Mode, k0: nat, k1: nat)
    requires |pat| > 0 && pat[0] == '{' && |x| >= 2
    requires BraceFree(a) && BraceFree(b) && BraceFree(x[2..])
    requires k0 < |pat| && k0 < |x| && !CharMatch(x[k0], pat[k0], mode)
    requires k1 < |pat| && 1 + k1 < |x| && !CharMatch(x[1 + k1], pat[k1], mode)
    ensures !Occurs(a + x + b, pat, mode)
  {
    var s := a + x + b;
    forall i: nat | i <= |s| ensures !MatchAt(s, i, pat, mode) {
      if i + |pat| <= |s| {
        if i == |a| {
          assert s[i + k0] == x[k0];
        } else if i == |a| + 1 {
          assert s[i + k1] == x[1 + k1];
        } else {
          assert s[i] != '{' by {
            if i < |a| {
              assert s[i] == a[i];
            } else if i < |a| + |x| {
              assert s[i] == x[2..][i - |a| - 2];
            } else {
              assert s[i] == b[i - |a| - |x|];
            }
          }
          if CharMatch(s[i + 0], pat[0], mode) {
            OnlyBraceMatchesBrace(s[i + 0], mode);
          }
        }
      }
    }
  }

  lemma BraceFreePrefixClear(a: string, pat: string, mode: Mode)
    requires |pat| > 0 && pat[0] == '{' && BraceFree(a)
    ensures forall i :: 0 <= i < |a| ==> !CharMatch(a[i], pat[0], mode)
  {
    forall i | 0 <= i < |a| ensures !CharMatch(a[i], pat[0], mode) {
      if CharMatch(a[i], pat[0], mode) {
        OnlyBraceMatchesBrace(a[i], mode);
      }
    }
  }

  /** A token spelled `{{index}}` in any ASCII case resolves to the counter
      (legacy rewriter). */
  lemma LegacyResolvesIndex(a: string, tok: string, b: string, counter: nat)
    requires BraceFree(a) && BraceFree(b)
    requires |tok| == 9 && MatchAt(tok, 0, "{{index}}", IgnoreCase)
    ensures RewriteValue(a + tok + b, LegacyTable, counter) == a + Decimal(counter) + b
  {
    var t0 := LegacyTable[0];
    var t1 := LegacyTable[1];
    var sub := Substitution(t0, counter);
    assert sub == Decimal(counter);
    BraceFreePrefixClear(a, t0.text, IgnoreCase);
    ReplaceAfterClearPrefix(a, tok, b, t0.text, sub, IgnoreCase);
    BraceFreeNoOccurs(b, t0.text, IgnoreCase);
    ReplaceWithoutMatch(b, t0.text, sub, IgnoreCase);
    var w := a + sub + b;
    SubstitutionBraceFree(t0, counter);
    BraceFreeConcat(a, sub);
    BraceFreeConcat(a + sub, b);
    BraceFreeNoOccurs(w, t1.text, IgnoreCase);
    ReplaceWithoutMatch(w, t1.text, Substitution(t1, counter), IgnoreCase);
    assert LegacyTable[1..][1..] == [];
  }

  /** A token spelled `{{index++}}` in any ASCII case resolves to the counter
      plus one (legacy rewriter). */
  lemma LegacyResolvesNext(a: string, tok: string, b: string, counter: nat)
    requires BraceFree(a) && BraceFree(b)
    requires |tok| == 11 && MatchAt(tok, 0, "{{index++}}", IgnoreCase)
    ensures RewriteValue(a + tok + b, LegacyTable, counter) == a + Decimal(counter + 1) + b
  {
    var t0 := LegacyTable[0];
    var t1 := LegacyTable[1];
    assert BraceFree(tok[2..]) by {
      forall i | 0 <= i < |tok[2..]| ensures tok[2..][i] != '{' {
        assert CharMatch(tok[i + 2], "{{index++}}"[i + 2], IgnoreCase);
      }
    }
    assert CharMatch(tok[0 + 7], "{{index++}}"[7], IgnoreCase) && CharMatch(tok[0 + 2], "{{index++}}"[2], IgnoreCase);
    TokenNotAmong(a, tok, b, t0.text, IgnoreCase, 7, 1);
    var s := a + tok + b;
    ReplaceWithoutMatch(s, t0.text, Substitution(t0, counter), IgnoreCase);
    var sub := Substitution(t1, counter);
    BraceFreePrefixClear(a, t1.text, IgnoreCase);
    ReplaceAfterClearPrefix(a, tok, b, t1.text, sub, IgnoreCase);
    BraceFreeNoOccurs(b, t1.text, IgnoreCase);
    ReplaceWithoutMatch(b, t1.text, sub, IgnoreCase);
    assert LegacyTable[1..][1..] == [];
  }

  /** The legacy rewriter knows no decrement token: `{{index--}}` stays literal. */
  lemma LegacyLeavesDecrement(a: string, b: string, counter: nat)
    requires BraceFree(a) && BraceFree(b)
    ensures RewriteValue(a + "{{index--}}" + b, LegacyTable, counter) == a + "{{index--}}" + b
  {
    var x := "{{index--}}";
    var s := a + x + b;
    assert BraceFree(x[2..]) by {
      forall i | 0 <= i < |x[2..]| ensures x[2..][i] != '{' {
        assert x[2..][i] in "index-}";
      }
    }
    TokenNotAmong(a, x, b, LegacyTable[0].text, IgnoreCase, 7, 1);
    TokenNotAmong(a, x, b, LegacyTable[1].text, IgnoreCase, 7, 1);
    LegacyNoReintroduction(counter);
    RewriteWithoutTokens(s, LegacyTable, counter);
  }

  /** One token of the table, standing between brace-free text, is replaced by
      its own substitution when no earlier token occurs in the value. */
  lemma {:induction false} RewriteSingle(table: seq<Token>, j: nat, a: string, b: string, counter: nat)
    requires ValidTable(table) && j < |table|
    requires forall i :: 0 <= i < |table| ==> table[i].text[0] == '{'
    requires BraceFree(a) && BraceFree(b)
    requires forall i :: 0 <= i < j ==> !Occurs(a + table[j].text + b, table[i].text, table[i].mode)
    ensures RewriteValue(a + table[j].text + b, table, counter) == a + Substitution(table[j], counter) + b
    decreases j
  {
    var s := a + table[j].text + b;
    var rest := table[1..];
    assert forall i :: 0 <= i < |rest| ==> rest[i] == table[i + 1];
    if j == 0 {
      var t := table[0];
      var sub := Substitution(t, counter);
      assert MatchAt(t.text, 0, t.text, t.mode);
      BraceFreePrefixClear(a, t.text, t.mode);
      ReplaceAfterClearPrefix(a, t.text, b, t.text, sub, t.mode);
      BraceFreeNoOccurs(b, t.text, t.mode);
      ReplaceWithoutMatch(b, t.text, sub, t.mode);
      var w := a + sub + b;
      SubstitutionBraceFree(t, counter);
      BraceFreeConcat(a, sub);
      BraceFreeConcat(a + sub, b);
      forall i | 0 <= i < |rest| ensures !Occurs(w, rest[i].text, rest[i].mode) {
        BraceFreeNoOccurs(w, rest[i].text, rest[i].mode);
      }
      RewriteWithoutTokens(w, rest, counter);
    } else {
      ReplaceWithoutMatch(s, table[0].text, Substitution(table[0], counter), table[0].mode);
      RewriteSingle(rest, j - 1, a, b, counter);
    }
  }

  lemma BundledTokenShape(id: string, suffix: string)
    requires BraceFree(id) && BraceFree(suffix) && |suffix| > 0
    ensures var t := BundledToken(id, suffix);
      && |t| == |id| + 8 + |suffix|
      && t[0] == '{' && t[1] == '{' && t[2] != '{'
      && t[|id| + 8] == suffix[0]
      && BraceFree(t[2..])
  {
    var t := BundledToken(id, suffix);
    var tail := id + ":index" + suffix;
    assert t == "{{" + tail;
    assert t[2..] == tail;
    assert BraceFree(":index") by {
      assert forall i :: 0 <= i < 6 ==> ":index"[i] in ":index";
    }
    BraceFreeConcat(id, ":index");
    BraceFreeConcat(id + ":index", suffix);
    assert t[|id| + 8] == tail[|id| + 6];
  }

  /** Each bundled token, standing between brace-free text, is replaced by the
      counter plus its offset: `{{id:index--}}` at counter 0 reads "-1". */
  lemma BundledResolves(id: string, a: string, b: string, j: nat, counter: nat)
    requires BraceFree(id) && BraceFree(a) && BraceFree(b) && j < 3
    ensures RewriteValue(a + BundledTable(id)[j].text + b, BundledTable(id), counter)
         == a + IntDecimal(counter + BundledTable(id)[j].offset) + b
  {
    var table := BundledTable(id);
    var suffixes := ["}}", "++}}", "--}}"];
    assert forall i :: 0 <= i < 3 ==> BraceFree(suffixes[i]) && |suffixes[i]| > 0 by {
      assert forall i :: 0 <= i < 2 ==> "}}"[i] in "}+-";
      assert forall i :: 0 <= i < 4 ==> "++}}"[i] in "}+-";
      assert forall i :: 0 <= i < 4 ==> "--}}"[i] in "}+-";
    }
    forall i | 0 <= i < 3 ensures table[i].text == BundledToken(id, suffixes[i]) {
    }
    forall i | 0 <= i < 3 ensures table[i].text[0] == '{' && |table[i].text| > 0 {
      BundledTokenShape(id, suffixes[i]);
    }
    var x := table[j].text;
    BundledTokenShape(id, suffixes[j]);
    forall i | 0 <= i < j ensures !Occurs(a + x + b, table[i].text, Exact) {
      BundledTokenShape(id, suffixes[i]);
      assert x[|id| + 8] != table[i].text[|id| + 8];
      TokenNotAmong(a, x, b, table[i].text, Exact, |id| + 8, 1);
    }
    RewriteSingle(table, j, a, b, counter);
  }

  // ---- Attributes, elements, items -----------------------------------------

  /** When `addIndex` writes a rewritten attribute back: the bundled engine
      checks the value it read, the older source and the mock the value it
      computed. */
  datatype Guard = SourceNonEmpty | ResultNonEmpty

  /** Rewrites one named attribute; an absent one is skipped. Whichever guard
      the variant uses, the attribute ends up holding the rewritten value,
      because only the empty value rewrites to the empty value. */
  function RewriteAttr(attrs: map<string, string>, key: string, table: seq<Token>, counter: nat, guard: Guard): (r: map<string, string>)
    requires ValidTable(table)
    ensures r.Keys == attrs.Keys
    ensures forall k :: k in attrs && k != key ==> r[k] == attrs[k]
    ensures key in attrs ==> r[key] == RewriteValue(attrs[key], table, counter)
  {
    if key !in attrs then attrs
    else
      match guard
      case SourceNonEmpty =>
        if attrs[key] != "" then attrs[key := RewriteValue(attrs[key], table, counter)] else attrs
      case ResultNonEmpty =>
        var v := RewriteValue(attrs[key], table, counter);
        if v != "" then attrs[key := v] else attrs
  }

  /** The `s-index` list walked left to right; a key listed twice is rewritten twice. */
  function RewriteKeys(attrs: map<string, string>, keys: seq<string>, table: seq<Token>, counter: nat, guard: Guard): (r: map<string, string>)
    requires ValidTable(table)
    ensures r.Keys == attrs.Keys
    ensures forall k :: k in attrs && k !in keys ==> r[k] == attrs[k]
    decreases |keys|
  {
    if keys == [] then attrs
    else RewriteKeys(RewriteAttr(attrs, keys[0], table, counter, guard), keys[1..], table, counter, guard)
  }

  predicate Distinct(keys: seq<string>) {
    forall i, j :: 0 <= i < j < |keys| ==> keys[i] != keys[j]
  }

  /** Every listed attribute ends up holding its original value rewritten
      once, provided no key is listed twice or rewriting is idempotent. */
  lemma {:induction false} ListedValue(attrs: map<string, string>, keys: seq<string>, table: seq<Token>, counter: nat, guard: Guard)
    requires ValidTable(table)
    requires Distinct(keys) || NoReintroduction(table, counter)
    ensures forall k :: k in attrs && k in keys ==>
      RewriteKeys(attrs, keys, table, counter, guard)[k] == RewriteValue(attrs[k], table, counter)
    decreases |keys|
  {
    if keys != [] {
      var k0 := keys[0];
      var m := RewriteAttr(attrs, k0, table, counter, guard);
      var rest := keys[1..];
      assert Distinct(keys) ==> Distinct(rest) && k0 !in rest by {
        if Distinct(keys) {
          forall i, j | 0 <= i < j < |rest| ensures rest[i] != rest[j] {
            assert rest[i] == keys[i + 1] && rest[j] == keys[j + 1];
          }
          forall i | 0 <= i < |rest| ensures rest[i] != k0 {
            assert rest[i] == keys[i + 1];
          }
        }
      }
      ListedValue(m, rest, table, counter, guard);
      forall k | k in attrs && k in keys
        ensures RewriteKeys(attrs, keys, table, counter, guard)[k] == RewriteValue(attrs[k], table, counter)
      {
        if k == k0 && k in rest {
          RewriteIdempotent(attrs[k], table, counter);
        } else if k != k0 {
          assert k in rest;
        }
      }
    }
  }

  /** The guard is invisible: both write-back rules give the same attributes. */
  lemma {:induction false} GuardsAgree(attrs: map<string, string>, keys: seq<string>, table: seq<Token>, counter: nat)
    requires ValidTable(table)
    ensures RewriteKeys(attrs, keys, table, counter, SourceNonEmpty) == RewriteKeys(attrs, keys, table, counter, ResultNonEmpty)
    decreases |keys|
  {
    if keys != [] {
      var m1 := RewriteAttr(attrs, keys[0], table, counter, SourceNonEmpty);
      var m2 := RewriteAttr(attrs, keys[0], table, counter, ResultNonEmpty);
      assert m1 == m2;
      GuardsAgree(m1, keys[1..], table, counter);
    }
  }

  /** The attribute is named in the element's non-empty `s-index` list. */
  predicate Listed(n: Node, key: string) {
    && TruthyAttr(n, IndexDirective).Some?
    && key in Split(n.attrs[IndexDirective], ',')
  }

  /** `addIndex` on one element carrying `[s-index]`. */
  function RewriteNode(n: Node, table: seq<Token>, counter: nat, guard: Guard): (r: Node)
    requires ValidTable(table)
    ensures r.text == n.text && r.button == n.button && r.attrs.Keys == n.attrs.Keys
    ensures forall k :: k in n.attrs && !Listed(n, k) ==> r.attrs[k] == n.attrs[k]
  {
    match TruthyAttr(n, IndexDirective)
    case None => n
    case Some(list) => n.(attrs := RewriteKeys(n.attrs, Split(list, ','), table, counter, guard))
  }

  /** Same element, with the listed attributes rewritten once and the others kept. */
  predicate Resolved(before: Node, after: Node, table: seq<Token>, counter: nat)
    requires ValidTable(table)
  {
    && after.text == before.text && after.button == before.button
    && after.attrs.Keys == before.attrs.Keys
    && forall k :: k in before.attrs ==>
         after.attrs[k] == (if Listed(before, k) then RewriteValue(before.attrs[k], table, counter) else before.attrs[k])
  }

  lemma RewriteNodeResolves(n: Node, table: seq<Token>, counter: nat, guard: Guard)
    requires ValidTable(table) && NoReintroduction(table, counter)
    ensures Resolved(n, RewriteNode(n, table, counter, guard), table, counter)
  {
    if TruthyAttr(n, IndexDirective).Some? {
      ListedValue(n.attrs, Split(n.attrs[IndexDirective], ','), table, counter, guard);
    }
  }

  /** After `addIndex`, no listed attribute holds a token. */
  lemma ListedHoldNoToken(n: Node, table: seq<Token>, counter: nat, guard: Guard)
    requires ValidTable(table) && NoReintroduction(table, counter)
    ensures forall k, j :: k in n.attrs && Listed(n, k) && 0 <= j < |table| ==>
      !Occurs(RewriteNode(n, table, counter, guard).attrs[k], table[j].text, table[j].mode)
  {
    RewriteNodeResolves(n, table, counter, guard);
    forall k | k in n.attrs && Listed(n, k)
      ensures forall j :: 0 <= j < |table| ==> !Occurs(RewriteNode(n, table, counter, guard).attrs[k], table[j].text, table[j].mode)
    {
      NoTokenSurvives(n.attrs[k], table, counter);
    }
  }

  function RewriteNodes(nodes: seq<Node>, table: seq<Token>, counter: nat, guard: Guard): (r: seq<Node>)
    requires ValidTable(table)
    ensures |r| == |nodes|
    ensures forall i :: 0 <= i < |nodes| ==> r[i] == RewriteNode(nodes[i], table, counter, guard)
    decreases |nodes|
  {
    if nodes == [] then [] else [RewriteNode(nodes[0], table, counter, guard)] + RewriteNodes(nodes[1..], table, counter, guard)
  }

  /** `addIndex` on an element (descendants only) or, with `withRoot`, on a
      fragment whose top-level element is the item's root. */
  function RewriteItem(item: Item, table: seq<Token>, counter: nat, guard: Guard, withRoot: bool): (r: Item)
    requires ValidTable(table)
    ensures |r.descendants| == |item.descendants|
    ensures !withRoot ==> r.root == item.root
    ensures withRoot ==> r.root == RewriteNode(item.root, table, counter, guard)
    ensures forall i :: 0 <= i < |item.descendants| ==> r.descendants[i] == RewriteNode(item.descendants[i], table, counter, guard)
  {
    Item(if withRoot then RewriteNode(item.root, table, counter, guard) else item.root,
         RewriteNodes(item.descendants, table, counter, guard))
  }

  function RewriteItems(items: seq<Item>, table: seq<Token>, counter: nat, guard: Guard, withRoot: bool): (r: seq<Item>)
    requires ValidTable(table)
    ensures |r| == |items|
    ensures forall i :: 0 <= i < |items| ==> r[i] == RewriteItem(items[i], table, counter, guard, withRoot)
    decreases |items|
  {
    if items == [] then [] else [RewriteItem(items[0], table, counter, guard, withRoot)] + RewriteItems(items[1..], table, counter, guard, withRoot)
  }
}

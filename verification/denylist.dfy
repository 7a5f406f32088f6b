/** The hook-code denylist and `createFunction`.

    Hook code read from `s-preadd`, `s-postadd`, `s-predelete` and
    `s-postdelete` becomes a function only if it is non-empty and matches none
    of the denylist patterns. Every bundled pattern is `/\bword\b/`; the list in
    the source's constants also has `/=>/`, which matches anywhere, and `new`.
    `\b` (without the `u` flag) separates a word character `[A-Za-z0-9_]` from
    a non-word character or from either end of the text. */
module Denylist {
  import opened Results

  datatype Pattern = Substring(text: string) | WholeWord(word: string)

  predicate IsWordChar(c: char) {
    'a' <= c <= 'z' || 'A' <= c <= 'Z' || '0' <= c <= '9' || c == '_'
  }

  /** `\b` holds at position `i` of `s`. */
  predicate Boundary(s: string, i: nat)
    requires i <= |s|
  {
    (i > 0 && IsWordChar(s[i - 1])) != (i < |s| && IsWordChar(s[i]))
  }

  /** `w` stands in `s` at position `i`. */
  predicate TextAt(s: string, i: nat, w: string) {
    i + |w| <= |s| && s[i..i + |w|] == w
  }

  predicate MatchesAt(s: string, i: nat, p: Pattern) {
    match p
    case Substring(t) => TextAt(s, i, t)
    case WholeWord(w) => TextAt(s, i, w) && Boundary(s, i) && Boundary(s, i + |w|)
  }

  /** `pattern.test(code)`. */
  predicate Matches(s: string, p: Pattern) {
    exists i: nat | i <= |s| :: MatchesAt(s, i, p)
  }

  /** `patterns.some((pattern) => pattern.test(code))`. */
  predicate Forbidden(code: string, list: seq<Pattern>) {
    exists j :: 0 <= j < |list| && Matches(code, list[j])
  }

  /** The list bundled with the engine. */
  const BundledDenylist: seq<Pattern> := [
    WholeWord("function"), WholeWord("eval"), WholeWord("localStorage"),
    WholeWord("sessionStorage"), WholeWord("XMLHttpRequest"), WholeWord("fetch"),
    WholeWord("setTimeout"), WholeWord("setInterval"), WholeWord("Promise"),
    WholeWord("async"), WholeWord("await"), WholeWord("import"), WholeWord("export")]

  /** The list in the source's constants: an arrow anywhere, and `new`. */
  const ExtendedDenylist: seq<Pattern> := [
    Substring("=>"), WholeWord("function"), WholeWord("new"), WholeWord("eval"),
    WholeWord("localStorage"), WholeWord("sessionStorage"), WholeWord("XMLHttpRequest"),
    WholeWord("fetch"), WholeWord("setTimeout"), WholeWord("setInterval"),
    WholeWord("Promise"), WholeWord("async"), WholeWord("await"), WholeWord("import"),
    WholeWord("export")]

  /** A synthesised hook: the parameter names and the body. */
  datatype Hook = Hook(params: seq<string>, body: string)

  /** `createFunction(code, params)`: empty code and denylisted code are refused. */
  function Synthesize(code: string, params: seq<string>, list: seq<Pattern>): (r: Result<Hook>)
    ensures r.Ok? <==> code != "" && !Forbidden(code, list)
    ensures r.Ok? ==> r.value == Hook(params, code)
    ensures r.Err? && code == "" ==> r.failure == MissingCode
    ensures r.Err? && code != "" ==> r.failure == ForbiddenPattern
  {
    if code == "" then Err(MissingCode)
    else if Forbidden(code, list) then Err(ForbiddenPattern)
    else Ok(Hook(params, code))
  }

  /** One pattern matched by scanning every start position. */
  method TestPattern(code: string, p: Pattern) returns (hit: bool)
    ensures hit <==> Matches(code, p)
  {
    hit := false;
    var i := 0;
    while i <= |code| && !hit
      invariant 0 <= i <= |code| + 1
      invariant hit ==> Matches(code, p)
      invariant !hit ==> forall k: nat :: k < i ==> !MatchesAt(code, k, p)
      decreases |code| + 1 - i, !hit
    {
      if MatchesAt(code, i, p) {
        hit := true;
      } else {
        i := i + 1;
      }
    }
  }

  /** The list walked in order, stopping at the first pattern that matches. */
  method IsForbidden(code: string, list: seq<Pattern>) returns (hit: bool)
    ensures hit <==> Forbidden(code, list)
  {
    hit := false;
    var j := 0;
    while j < |list| && !hit
      invariant 0 <= j <= |list|
      invariant hit ==> Forbidden(code, list)
      invariant !hit ==> forall k :: 0 <= k < j ==> !Matches(code, list[k])
      decreases |list| - j, !hit
    {
      hit := TestPattern(code, list[j]);
      if !hit {
        j := j + 1;
      }
    }
  }

  /** `createFunction` as the engine runs it. */
  method CreateFunction(code: string, params: seq<string>, list: seq<Pattern>) returns (r: Result<Hook>)
    ensures r.Ok? <==> code != "" && !Forbidden(code, list)
    ensures r.Ok? ==> r.value == Hook(params, code)
    ensures r.Err? ==> r.failure == (if code == "" then MissingCode else ForbiddenPattern)
  {
    if code == "" {
      return Err(MissingCode);
    }
    var hit := IsForbidden(code, list);
    if hit {
      return Err(ForbiddenPattern);
    }
    return Ok(Hook(params, code));
  }

  /** Whatever the bundled list refuses, the extended list refuses too. */
  lemma ExtendedCoversBundled(code: string)
    ensures Forbidden(code, BundledDenylist) ==> Forbidden(code, ExtendedDenylist)
  {
    if Forbidden(code, BundledDenylist) {
      var j :| 0 <= j < |BundledDenylist| && Matches(code, BundledDenylist[j]);
      if j == 0 {
        assert ExtendedDenylist[1] == BundledDenylist[0];
      } else {
        assert ExtendedDenylist[j + 2] == BundledDenylist[j];
      }
    }
  }

  /** An arrow is refused wherever it stands, whatever surrounds it. */
  lemma ArrowAlwaysForbidden(a: string, b: string)
    ensures Forbidden(a + "=>" + b, ExtendedDenylist)
  {
    var s := a + "=>" + b;
    assert s[|a|..|a| + 2] == "=>";
    assert MatchesAt(s, |a|, ExtendedDenylist[0]);
  }

  /** In text made only of word characters a word stands alone only if it is
      the whole text. */
  lemma WordOnlyInIsolation(s: string, w: string)
    requires |w| > 0 && forall i :: 0 <= i < |s| ==> IsWordChar(s[i])
    ensures Matches(s, WholeWord(w)) <==> s == w
  {
    if Matches(s, WholeWord(w)) {
      var i: nat :| i <= |s| && MatchesAt(s, i, WholeWord(w));
      assert s[i] == w[0];
      assert i == 0;
      assert s[i + |w| - 1] == w[|w| - 1];
      assert i + |w| == |s|;
      assert s == s[i..i + |w|];
    }
    if s == w {
      assert MatchesAt(s, 0, WholeWord(w));
    }
  }

  /** A word set off by non-word characters (or the ends of the text) is found. */
  lemma IsolatedWordDetected(a: string, w: string, b: string, list: seq<Pattern>, j: nat)
    requires j < |list| && list[j] == WholeWord(w) && |w| > 0
    requires IsWordChar(w[0]) && IsWordChar(w[|w| - 1])
    requires a == [] || !IsWordChar(a[|a| - 1])
    requires b == [] || !IsWordChar(b[0])
    ensures Forbidden(a + w + b, list)
  {
    var s := a + w + b;
    assert s[|a|..|a| + |w|] == w;
    assert s[|a|] == w[0];
    assert s[|a| + |w| - 1] == w[|w| - 1];
    if a != [] {
      assert s[|a| - 1] == a[|a| - 1];
    }
    if b != [] {
      assert s[|a| + |w|] == b[0];
    }
    assert MatchesAt(s, |a|, list[j]);
  }

  /** A call of `fetch` is refused by both lists. */
  lemma FetchForbidden()
    ensures Forbidden("fetch(url)", BundledDenylist)
    ensures Forbidden("fetch(url)", ExtendedDenylist)
  {
    assert "fetch(url)" == [] + "fetch" + "(url)";
    IsolatedWordDetected([], "fetch", "(url)", BundledDenylist, 5);
    ExtendedCoversBundled("fetch(url)");
  }

  /** No start of `s` carries `w` when its first character is absent from `s`. */
  lemma FirstCharAbsent(s: string, w: string)
    requires |w| > 0 && w[0] !in s
    ensures forall i: nat :: i <= |s| ==> !TextAt(s, i, w)
  {
    forall i: nat | i <= |s| ensures !TextAt(s, i, w) {
      if i + |w| <= |s| {
        assert s[i..i + |w|][0] == s[i];
        assert s[i] in s;
      }
    }
  }

  /** An identifier free of `=` that is not itself a denylisted word is accepted
      by the extended list, whatever words it embeds. */
  lemma IdentifierAllowed(s: string)
    requires forall i :: 0 <= i < |s| ==> IsWordChar(s[i])
    requires forall j :: 1 <= j < |ExtendedDenylist| ==> s != ExtendedDenylist[j].word
    ensures !Forbidden(s, ExtendedDenylist)
  {
    forall j | 0 <= j < |ExtendedDenylist| ensures !Matches(s, ExtendedDenylist[j]) {
      if j == 0 {
        assert forall i :: 0 <= i < |s| ==> s[i] != '=';
        assert '=' !in s;
        FirstCharAbsent(s, "=>");
      } else {
        WordOnlyInIsolation(s, ExtendedDenylist[j].word);
      }
    }
  }

  /** Denylisted words inside longer identifiers do not count. */
  lemma EmbeddedWordsAllowed()
    ensures !Forbidden("renewal", ExtendedDenylist)
    ensures !Forbidden("fetcher", ExtendedDenylist)
  {
    assert forall j :: 1 <= j < |ExtendedDenylist| ==> "renewal" != ExtendedDenylist[j].word by {
      forall j | 1 <= j < |ExtendedDenylist| ensures "renewal" != ExtendedDenylist[j].word {
        assert "renewal"[0] == 'r';
      }
    }
    assert forall j :: 1 <= j < |ExtendedDenylist| ==> "fetcher" != ExtendedDenylist[j].word by {
      forall j | 1 <= j < |ExtendedDenylist| ensures "fetcher" != ExtendedDenylist[j].word {
        assert |"fetcher"| == 7;
        if j == 7 { assert "fetcher"[5] != "fetch"[4]; }
      }
    }
    assert forall i :: 0 <= i < 7 ==> "renewal"[i] in "renwal";
    assert forall i :: 0 <= i < 7 ==> "fetcher"[i] in "fetchr";
    IdentifierAllowed("renewal");
    IdentifierAllowed("fetcher");
  }

  /** The bundled list lets an arrow function through; the extended list does not. */
  lemma ArrowOnlyRefusedByExtended()
    ensures !Forbidden("x => x", BundledDenylist)
    ensures Forbidden("x => x", ExtendedDenylist)
  {
    var s := "x => x";
    forall j | 0 <= j < |BundledDenylist| ensures !Matches(s, BundledDenylist[j]) {
      var w := BundledDenylist[j].word;
      assert w[0] !in s;
      FirstCharAbsent(s, w);
    }
    assert s == "x " + "=>" + " x";
    ArrowAlwaysForbidden("x ", " x");
  }

  /** Every word of the bundled list, set off by non-word characters, is
      refused by both lists. */
  lemma EveryBundledWordRefused(a: string, j: nat, b: string)
    requires j < |BundledDenylist|
    requires a == [] || !IsWordChar(a[|a| - 1])
    requires b == [] || !IsWordChar(b[0])
    ensures Forbidden(a + BundledDenylist[j].word + b, BundledDenylist)
    ensures Forbidden(a + BundledDenylist[j].word + b, ExtendedDenylist)
  {
    var w := BundledDenylist[j].word;
    assert |w| > 0 && IsWordChar(w[0]) && IsWordChar(w[|w| - 1]);
    IsolatedWordDetected(a, w, b, BundledDenylist, j);
    ExtendedCoversBundled(a + w + b);
  }

  /** `new` is refused only by the extended list. */
  lemma NewOnlyRefusedByExtended()
    ensures !Forbidden("new N()", BundledDenylist)
    ensures Forbidden("new N()", ExtendedDenylist)
  {
    var s := "new N()";
    forall j | 0 <= j < |BundledDenylist| ensures !Matches(s, BundledDenylist[j]) {
      var w := BundledDenylist[j].word;
      if w[0] == 'e' {
        assert w[1] !in s;
        forall i: nat | i <= |s| ensures !TextAt(s, i, w) {
          if i + |w| <= |s| {
            assert s[i..i + |w|][1] == s[i + 1];
            assert s[i + 1] in s;
          }
        }
      } else {
        assert w[0] !in s;
        FirstCharAbsent(s, w);
      }
    }
    assert s == [] + "new" + " N()";
    IsolatedWordDetected([], "new", " N()", ExtendedDenylist, 2);
  }
}

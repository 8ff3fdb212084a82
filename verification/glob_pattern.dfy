/** The glob matcher: what language a pattern stands for, what the matcher with its skip-ahead behind
    a star accepts, and for which patterns the two are the same. */
module GlobPattern {
  import opened Common

  /** The characters of a C string; behind them the terminator is read. */
  predicate CString(s: string) { '\0' !in s }

  lemma Terminated(s: string, i: nat)
    requires CString(s) && i <= |s|
    ensures CharAt(s, i) == '\0' <==> i == |s|
  {
    assert i < |s| ==> s[i] in s;
  }

  // ---------- patterns ----------

  datatype Range = Range(lo: char, hi: char)

  datatype Token =
    | Literal(c: char, escaped: bool)
    | Any
    | OneOf(ranges: seq<Range>)
    | Star

  datatype Glob = End | Then(token: Token, rest: Glob)

  /** The first closing bracket from i on, or the end of the pattern. */
  function Closing(pat: string, i: nat): (e: nat)
    ensures e < |pat| ==> i <= e && pat[e] == ']' && forall j :: i <= j < e ==> pat[j] != ']'
    ensures e >= |pat| ==> forall j :: i <= j < |pat| ==> pat[j] != ']'
    decreases |pat| - i
  {
    if i >= |pat| then |pat| else if pat[i] == ']' then i else Closing(pat, i + 1)
  }

  /** The ranges between the brackets, from i up to the closing bracket at e. */
  function Ranges(pat: string, i: nat, e: nat): seq<Range>
    requires e < |pat|
    decreases e - i
  {
    if i >= e then []
    else if i + 2 < e && pat[i + 1] == '-' then [Range(pat[i], pat[i + 2])] + Ranges(pat, i + 3, e)
    else [Range(pat[i], pat[i])] + Ranges(pat, i + 1, e)
  }

  /** The pattern from position i on. The first character in brackets is taken as it is, even a
      closing bracket; without a closing bracket nothing matches. */
  function Parse(pat: string, i: nat): Glob
    decreases |pat| - i
  {
    if i >= |pat| then End
    else if pat[i] == '\\' then
      if i + 1 < |pat| then Then(Literal(pat[i + 1], true), Parse(pat, i + 2)) else End
    else if pat[i] == '?' then Then(Any, Parse(pat, i + 1))
    else if pat[i] == '*' then Then(Star, Parse(pat, i + 1))
    else if pat[i] == '[' then
      var e := Closing(pat, i + 2);
      if e < |pat| then Then(OneOf(Ranges(pat, i + 1, e)), Parse(pat, e + 1)) else Then(OneOf([]), End)
    else Then(Literal(pat[i], false), Parse(pat, i + 1))
  }

  /** No backslash at the end with nothing to escape. */
  predicate Complete(pat: string, i: nat)
    decreases |pat| - i
  {
    if i >= |pat| then true
    else if pat[i] == '\\' then i + 1 < |pat| && Complete(pat, i + 2)
    else if pat[i] == '[' then
      var e := Closing(pat, i + 2);
      e < |pat| ==> Complete(pat, e + 1)
    else Complete(pat, i + 1)
  }

  predicate InSet(c: char, ranges: seq<Range>) {
    exists r :: r in ranges && r.lo <= c <= r.hi
  }

  // ---------- the language, and what the matcher tries ----------

  /** The string from position j on is in the language of the pattern. */
  ghost predicate InLanguage(g: Glob, s: string, j: nat)
    decreases g
  {
    match g
    case End => j == |s|
    case Then(Literal(c, _), rest) => j < |s| && s[j] == c && InLanguage(rest, s, j + 1)
    case Then(Any, rest) => j < |s| && InLanguage(rest, s, j + 1)
    case Then(OneOf(ranges), rest) => j < |s| && InSet(s[j], ranges) && InLanguage(rest, s, j + 1)
    case Then(Star, rest) => exists k :: j <= k <= |s| && InLanguage(rest, s, k)
  }

  /** The first position of c from j on, or past the end. */
  ghost function Find(s: string, c: char, j: nat): (k: nat)
    ensures k <= |s| ==> j <= k < |s| && s[k] == c
    ensures forall i :: j <= i < |s| && s[i] == c ==> k <= i
    decreases |s| - j
  {
    if j >= |s| then |s| + 1 else if s[j] == c then j else Find(s, c, j + 1)
  }

  /** Where the matcher starts trying behind a star: at the next occurrence of the pattern's next
      character, and that is the backslash if the character is escaped. */
  ghost function Skip(rest: Glob, s: string, j: nat): nat {
    match rest
    case End => |s|
    case Then(Literal(c, escaped), _) => Find(s, if escaped then '\\' else c, j)
    case Then(_, _) => j
  }

  ghost predicate Accepts(g: Glob, s: string, j: nat)
    decreases g
  {
    match g
    case End => j == |s|
    case Then(Literal(c, _), rest) => j < |s| && s[j] == c && Accepts(rest, s, j + 1)
    case Then(Any, rest) => j < |s| && Accepts(rest, s, j + 1)
    case Then(OneOf(ranges), rest) => j < |s| && InSet(s[j], ranges) && Accepts(rest, s, j + 1)
    case Then(Star, rest) => exists k :: Skip(rest, s, j) <= k <= |s| && j <= k && Accepts(rest, s, k)
  }

  /** A star directly before an escaped character other than the backslash. */
  predicate StarBeforeEscape(g: Glob) {
    match g
    case End => false
    case Then(Star, Then(Literal(c, true), rest)) => c != '\\' || StarBeforeEscape(rest)
    case Then(_, rest) => StarBeforeEscape(rest)
  }

  /** What the matcher accepts is in the language. */
  lemma {:induction false} AcceptsIsSound(g: Glob, s: string, j: nat)
    requires Accepts(g, s, j)
    ensures InLanguage(g, s, j)
    decreases g
  {
    match g {
      case End =>
      case Then(Star, rest) =>
        var k :| Skip(rest, s, j) <= k <= |s| && j <= k && Accepts(rest, s, k);
        AcceptsIsSound(rest, s, k);
      case Then(_, rest) =>
        AcceptsIsSound(rest, s, j + 1);
    }
  }

  /** The skip-ahead drops no match, unless it looks for a backslash that the string need not have. */
  lemma {:induction false} AcceptsIsComplete(g: Glob, s: string, j: nat)
    requires InLanguage(g, s, j) && !StarBeforeEscape(g)
    ensures Accepts(g, s, j)
    decreases g
  {
    match g {
      case End =>
      case Then(Star, rest) =>
        var k :| j <= k <= |s| && InLanguage(rest, s, k);
        AcceptsIsComplete(rest, s, k);
        assert Skip(rest, s, j) <= k;
      case Then(_, rest) =>
        AcceptsIsComplete(rest, s, j + 1);
    }
  }

  // ---------- the patterns for which it fails ----------

  /** Every bracket has some member. */
  predicate Satisfiable(g: Glob) {
    match g
    case End => true
    case Then(OneOf(ranges), rest) => (exists r :: r in ranges && r.lo <= r.hi) && Satisfiable(rest)
    case Then(_, rest) => Satisfiable(rest)
  }

  ghost function MinLength(g: Glob): nat {
    match g
    case End => 0
    case Then(Star, rest) => MinLength(rest)
    case Then(_, rest) => 1 + MinLength(rest)
  }

  /** A shortest word of the pattern: nothing for the stars. */
  ghost function Word(g: Glob): (w: string)
    requires Satisfiable(g)
    ensures |w| == MinLength(g)
  {
    match g
    case End => ""
    case Then(Literal(c, _), rest) => [c] + Word(rest)
    case Then(Any, rest) => "?" + Word(rest)
    case Then(OneOf(ranges), rest) =>
      var r :| r in ranges && r.lo <= r.hi;
      [r.lo] + Word(rest)
    case Then(Star, rest) => Word(rest)
  }

  lemma {:induction false} WordInLanguage(g: Glob, before: string)
    requires Satisfiable(g)
    ensures InLanguage(g, before + Word(g), |before|)
    decreases g
  {
    match g {
      case End =>
      case Then(Star, rest) => WordInLanguage(rest, before);
      case Then(token, rest) =>
        var c := Word(g)[0];
        assert Word(g) == [c] + Word(rest);
        WordInLanguage(rest, before + [c]);
        OneMoreChar(g, c, before, Word(rest));
    }
  }

  lemma OneMoreChar(g: Glob, c: char, before: string, w: string)
    requires g.Then? && g.token != Star && InLanguage(g.rest, before + [c] + w, |before + [c]|)
    requires match g.token case Literal(l, _) => c == l case OneOf(ranges) => InSet(c, ranges) case _ => true
    ensures InLanguage(g, before + ([c] + w), |before|)
  {
    assert before + ([c] + w) == before + [c] + w;
    assert (before + [c] + w)[|before|] == c;
  }

  lemma {:induction false} LanguageHasMinLength(g: Glob, s: string, j: nat)
    requires InLanguage(g, s, j)
    ensures j + MinLength(g) <= |s|
    decreases g
  {
    match g {
      case End =>
      case Then(Star, rest) =>
        var k :| j <= k <= |s| && InLanguage(rest, s, k);
        LanguageHasMinLength(rest, s, k);
      case Then(_, rest) => LanguageHasMinLength(rest, s, j + 1);
    }
  }

  lemma {:induction false} LanguageIsSatisfiable(g: Glob, s: string, j: nat)
    requires InLanguage(g, s, j)
    ensures Satisfiable(g)
    decreases g
  {
    match g {
      case End =>
      case Then(Star, rest) =>
        var k :| j <= k <= |s| && InLanguage(rest, s, k);
        LanguageIsSatisfiable(rest, s, k);
      case Then(_, rest) => LanguageIsSatisfiable(rest, s, j + 1);
    }
  }

  /** A shortest word leaves nothing for the stars, so the matcher never gets past the escape. */
  lemma {:induction false} ShortestIsMissed(g: Glob, s: string, j: nat)
    requires StarBeforeEscape(g) && j + MinLength(g) == |s|
    ensures !Accepts(g, s, j)
    decreases g
  {
    match g {
      case Then(Star, rest) =>
        forall k | Skip(rest, s, j) <= k <= |s| && j <= k ensures !Accepts(rest, s, k) {
          if Accepts(rest, s, k) {
            AcceptsIsSound(rest, s, k);
            LanguageHasMinLength(rest, s, k);
            if StarBeforeEscape(rest) { ShortestIsMissed(rest, s, j); }
          }
        }
      case Then(_, rest) =>
        if j < |s| { ShortestIsMissed(rest, s, j + 1); }
    }
  }

  /** Patterns whose literals and ranges do not name the terminator. */
  predicate NoTerminator(g: Glob) {
    match g
    case End => true
    case Then(Literal(c, _), rest) => c != '\0' && NoTerminator(rest)
    case Then(OneOf(ranges), rest) => (forall r :: r in ranges ==> r.lo != '\0') && NoTerminator(rest)
    case Then(_, rest) => NoTerminator(rest)
  }

  lemma {:induction false} WordIsString(g: Glob)
    requires Satisfiable(g) && NoTerminator(g)
    ensures CString(Word(g))
  {
    match g {
      case End =>
      case Then(_, rest) => WordIsString(rest);
    }
  }

  lemma {:induction false} RangesNoTerminator(pat: string, i: nat, e: nat)
    requires CString(pat) && e < |pat|
    ensures forall r :: r in Ranges(pat, i, e) ==> r.lo != '\0'
    decreases e - i
  {
    if i < e {
      assert pat[i] in pat;
      if i + 2 < e && pat[i + 1] == '-' { RangesNoTerminator(pat, i + 3, e); }
      else { RangesNoTerminator(pat, i + 1, e); }
    }
  }

  lemma {:induction false} ParseNoTerminator(pat: string, i: nat)
    requires CString(pat)
    ensures NoTerminator(Parse(pat, i))
    decreases |pat| - i
  {
    if i < |pat| {
      if pat[i] == '\\' {
        if i + 1 < |pat| {
          assert pat[i + 1] in pat;
          ParseNoTerminator(pat, i + 2);
        }
      } else if pat[i] == '[' {
        var e := Closing(pat, i + 2);
        if e < |pat| {
          RangesNoTerminator(pat, i + 1, e);
          ParseNoTerminator(pat, e + 1);
        }
      } else {
        assert pat[i] in pat;
        ParseNoTerminator(pat, i + 1);
      }
    }
  }

  /** The matcher decides the language of a pattern, for all strings, exactly if no star stands
      directly before an escaped character other than the backslash, or some bracket has no member. */
  lemma MatcherIsRightExactly(pat: string)
    requires CString(pat)
    ensures var g := Parse(pat, 0);
            (forall s :: CString(s) ==> (Accepts(g, s, 0) <==> InLanguage(g, s, 0)))
            <==> !StarBeforeEscape(g) || !Satisfiable(g)
  {
    var g := Parse(pat, 0);
    if !StarBeforeEscape(g) || !Satisfiable(g) {
      forall s ensures Accepts(g, s, 0) <==> InLanguage(g, s, 0) {
        if Accepts(g, s, 0) { AcceptsIsSound(g, s, 0); }
        if InLanguage(g, s, 0) {
          LanguageIsSatisfiable(g, s, 0);
          AcceptsIsComplete(g, s, 0);
        }
      }
    } else {
      var w := Word(g);
      ParseNoTerminator(pat, 0);
      WordIsString(g);
      WordInLanguage(g, "");
      assert "" + w == w;
      ShortestIsMissed(g, w, 0);
    }
  }

  /** The pattern *\x does not match the string x. */
  lemma EscapeAfterStarExample()
    ensures var g := Parse("*\\x", 0); InLanguage(g, "x", 0) && !Accepts(g, "x", 0)
  {
    var g := Parse("*\\x", 0);
    assert Parse("*\\x", 3) == End;
    assert Parse("*\\x", 1) == Then(Literal('x', true), End);
    assert g == Then(Star, Then(Literal('x', true), End));
    assert InLanguage(End, "x", 1);
    assert InLanguage(Then(Literal('x', true), End), "x", 0);
    ShortestIsMissed(g, "x", 0);
  }

  // ---------- the matcher ----------

  /** The character is in the ranges from position i on. */
  predicate Listed(pat: string, i: nat, e: nat, chr: char)
    requires e < |pat|
    decreases e - i
  {
    if i >= e then false
    else if i + 2 < e && pat[i + 1] == '-' then pat[i] <= chr <= pat[i + 2] || Listed(pat, i + 3, e, chr)
    else chr == pat[i] || Listed(pat, i + 1, e, chr)
  }

  lemma {:induction false} ListedIsInSet(pat: string, i: nat, e: nat, chr: char)
    requires e < |pat|
    ensures Listed(pat, i, e, chr) <==> InSet(chr, Ranges(pat, i, e))
    decreases e - i
  {
    if i < e {
      var next := if i + 2 < e && pat[i + 1] == '-' then i + 3 else i + 1;
      var first := if next == i + 3 then Range(pat[i], pat[i + 2]) else Range(pat[i], pat[i]);
      ListedIsInSet(pat, next, e, chr);
      assert Ranges(pat, i, e) == [first] + Ranges(pat, next, e);
      InSetCons(chr, first, Ranges(pat, next, e));
    }
  }

  lemma InSetCons(c: char, first: Range, others: seq<Range>)
    ensures InSet(c, [first] + others) <==> first.lo <= c <= first.hi || InSet(c, others)
  {
    assert first in [first] + others;
    assert forall r :: r in others ==> r in [first] + others;
  }

  /** The scan of a bracket, from its first character to behind its end; it does not pass the end. */
  method InBrackets(pat: string, start: nat, ghost e: nat, chr: char) returns (found: bool, p: nat)
    requires start < e < |pat| && pat[e] == ']' && forall j :: start < j < e ==> pat[j] != ']'
    ensures found <==> InSet(chr, Ranges(pat, start, e))
    ensures p == e + 1
  {
    ListedIsInSet(pat, start, e, chr);
    found, p := false, start;
    var c := pat[p];
    p := p + 1;
    ghost var at := start;
    while true
      invariant start <= at < e && p == at + 1 && c == pat[at]
      invariant Listed(pat, start, e, chr) <==> found || Listed(pat, at, e, chr)
      decreases e - at
    {
      if CharAt(pat, p) == '-' && CharAt(pat, p + 1) != ']' {
        assert at + 2 < e;
        p := p + 1;
        if c <= chr <= pat[p] { found := true; }
        p := p + 1;
        at := at + 3;
      } else {
        assert !(at + 2 < e && pat[at + 1] == '-');
        if chr == c { found := true; }
        at := at + 1;
      }
      assert Listed(pat, start, e, chr) <==> found || Listed(pat, at, e, chr);
      c := pat[p];
      p := p + 1;
      if c == ']' { break; }
    }
    assert at == e && !Listed(pat, at, e, chr);
  }

  /** Looks for the closing bracket, behind the first character of the bracket. */
  method FindClosing(pat: string, p: nat) returns (closed: bool, ghost endp: nat)
    requires CString(pat) && p <= |pat|
    ensures endp == Closing(pat, p + 1) && (closed <==> endp < |pat|)
  {
    var at := p;
    while true
      invariant p <= at <= |pat| && Closing(pat, p + 1) == Closing(pat, at + 1)
      decreases |pat| - at
    {
      Terminated(pat, at);
      if CharAt(pat, at) == '\0' { return false, |pat|; }
      at := at + 1;
      if CharAt(pat, at) == ']' { return true, at; }
    }
  }

  /** What is left to be tried behind a star, from position k on. */
  ghost predicate AcceptsLater(g: Glob, s: string, k: nat) {
    exists l :: k <= l <= |s| && Accepts(g, s, l)
  }

  /** Behind a star, the first position where the next character of the pattern can match. */
  method SkipAhead(pat: string, p: nat, str: string, from: nat) returns (found: bool, q: nat)
    requires CString(pat) && CString(str) && p <= |pat| && from <= |str| && Complete(pat, p)
    ensures found <==> Skip(Parse(pat, p), str, from) <= |str|
    ensures found ==> q == Skip(Parse(pat, p), str, from) && from <= q
  {
    q := from;
    var c := CharAt(pat, p);
    Terminated(pat, p);
    if c != '?' && c != '*' && c != '[' {
      ghost var g := Parse(pat, p);
      while CharAt(str, q) != c
        invariant from <= q <= |str| && Skip(g, str, from) == Skip(g, str, q)
        decreases |str| - q
      {
        Terminated(str, q);
        if CharAt(str, q) == '\0' { return false, q; }
        q := q + 1;
      }
      Terminated(str, q);
    }
    found := true;
  }

  /** The code behind a star: skip ahead, and then try every position. */
  method AfterStar(pat: string, p: nat, str: string, from: nat) returns (r: bool)
    requires CString(pat) && CString(str) && p <= |pat| && from <= |str| && Complete(pat, p)
    ensures r <==> Accepts(Then(Star, Parse(pat, p)), str, from)
    decreases |pat| - p, 1
  {
    ghost var g := Parse(pat, p);
    var found, q := SkipAhead(pat, p, str, from);
    StarIsLater(g, str, from);
    if !found { return false; }
    ghost var goal := AcceptsLater(g, str, q);
    while true
      invariant q <= |str| && (goal <==> AcceptsLater(g, str, q))
      decreases |str| - q
    {
      LaterStep(g, str, q);
      var matched := PMatch(pat, p, str, q);
      if matched { return true; }
      Terminated(str, q);
      if CharAt(str, q) == '\0' { return false; }
      q := q + 1;
    }
  }

  lemma StarIsLater(g: Glob, s: string, from: nat)
    requires from <= |s|
    ensures Accepts(Then(Star, g), s, from) <==> AcceptsLater(g, s, Skip(g, s, from))
  {
  }

  lemma LaterStep(g: Glob, s: string, k: nat)
    requires k <= |s|
    ensures AcceptsLater(g, s, k) <==> Accepts(g, s, k) || AcceptsLater(g, s, k + 1)
  {
  }

  /** pmatch, from position `start` of the pattern and `from` of the string. */
  method PMatch(pat: string, start: nat, str: string, from: nat) returns (r: bool)
    requires CString(pat) && CString(str) && start <= |pat| && from <= |str| && Complete(pat, start)
    ensures r <==> Accepts(Parse(pat, start), str, from)
    decreases |pat| - start, 0
  {
    var p: nat, q: nat := start, from;
    var c;
    var skipNextMetaCharacter := false;
    ghost var goal := Accepts(Parse(pat, start), str, from);
    while true
      invariant start <= p <= |pat| && q <= |str|
      invariant !skipNextMetaCharacter ==> Complete(pat, p) && (goal <==> Accepts(Parse(pat, p), str, q))
      invariant skipNextMetaCharacter ==> start < p < |pat| && Complete(pat, p + 1)
      invariant skipNextMetaCharacter ==> (goal <==> Accepts(Then(Literal(pat[p], true), Parse(pat, p + 1)), str, q))
      decreases |pat| - p
    {
      c := CharAt(pat, p);
      Terminated(pat, p);
      Terminated(str, q);
      p := p + 1;
      var isRegularCharacter := false;
      if !skipNextMetaCharacter {
        if c == '\\' {
          skipNextMetaCharacter := true;
        } else if c == '\0' {
        } else if c == '?' {
          if CharAt(str, q) == '\0' { return false; }
          q := q + 1;
        } else if c == '*' {
          r := AfterStar(pat, p, str, q);
          return;
        } else if c == '[' {
          var closed;
          ghost var endp;
          var chr := CharAt(str, q);
          closed, endp := FindClosing(pat, p);
          if !closed || chr == '\0' { return false; }
          q := q + 1;
          var found;
          found, p := InBrackets(pat, p, endp, chr);
          if !found { return false; }
        } else {
          isRegularCharacter := true;
        }
      } else {
        isRegularCharacter := true;
        skipNextMetaCharacter := false;
      }
      if isRegularCharacter {
        if CharAt(str, q) != c { return false; }
        q := q + 1;
      }
      if c == '\0' { break; }
    }
    r := CharAt(str, q) == '\0';
  }

  /** mtlk_pattern_match: a leading exclamation mark negates. */
  method PatternMatch(pat: string, str: string) returns (r: bool)
    requires CString(pat) && CString(str) && Complete(pat, if CharAt(pat, 0) == '!' then 1 else 0)
    ensures var negated := CharAt(pat, 0) == '!';
            var g := Parse(pat, if negated then 1 else 0);
            !StarBeforeEscape(g) ==> (r <==> (InLanguage(g, str, 0) != negated))
  {
    var negated := CharAt(pat, 0) == '!';
    var start := if negated then 1 else 0;
    ghost var g := Parse(pat, start);
    if Accepts(g, str, 0) { AcceptsIsSound(g, str, 0); }
    if InLanguage(g, str, 0) && !StarBeforeEscape(g) { AcceptsIsComplete(g, str, 0); }
    r := PMatch(pat, start, str, 0);
    if negated { r := !r; }
  }
}

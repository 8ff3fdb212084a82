/** Quoted string values in configuration lines: escaping on the way out, unescaping in place in
    the line buffer on the way back in. */
module ConfigStrings {
  import opened Common
  import opened KconfigSyntax

  // ---------- what escaping means ----------

  predicate Special(c: char) { c == '"' || c == '\\' }

  /** A backslash before every quote and every backslash. */
  function Escaped(v: string): string {
    if v == "" then "" else EscapedChar(v[0]) + Escaped(v[1..])
  }

  function EscapedChar(c: char): string { if Special(c) then ['\\', c] else [c] }

  function Quoted(v: string): string { "\"" + Escaped(v) + "\"" }

  /** The text up to the first quote without a backslash, with the other backslashes taken away. */
  function Unquoted(t: string): Option<string> {
    if t == "" then None
    else if t[0] == '"' then Some("")
    else if t[0] == '\\' && |t| == 1 then None
    else
      var plain := t[0] != '\\';
      var c, rest := if plain then t[0] else t[1], if plain then t[1..] else t[2..];
      match Unquoted(rest)
      case None => None
      case Some(v) => Some([c] + v)
  }

  lemma UnquotedStep(c: char, rest: string)
    ensures Unquoted(EscapedChar(c) + rest)
         == match Unquoted(rest) { case None => None case Some(v) => Some([c] + v) }
  {
    var t := EscapedChar(c) + rest;
    assert t[|EscapedChar(c)|..] == rest;
  }

  /** Unquoting undoes quoting, whatever follows the closing quote. */
  lemma {:induction false} UnquotedEscaped(v: string, behind: string)
    ensures Unquoted(Escaped(v) + ("\"" + behind)) == Some(v)
  {
    var tail := "\"" + behind;
    if v == "" {
      assert Escaped(v) + tail == tail;
    } else {
      UnquotedEscaped(v[1..], behind);
      Associative(EscapedChar(v[0]), Escaped(v[1..]), tail);
      UnquotedStep(v[0], Escaped(v[1..]) + tail);
      assert v == [v[0]] + v[1..];
    }
  }

  /** Without its closing quote an escaped value is not a string value. */
  lemma {:induction false} UnquotedNeedsQuote(v: string)
    ensures Unquoted(Escaped(v)) == None
  {
    if v != "" {
      UnquotedNeedsQuote(v[1..]);
      UnquotedStep(v[0], Escaped(v[1..]));
    }
  }

  lemma {:induction false} EscapedConcat(a: string, b: string)
    ensures Escaped(a + b) == Escaped(a) + Escaped(b)
  {
    if a == "" {
      assert a + b == b;
    } else {
      EscapedConcat(a[1..], b);
      assert (a + b)[1..] == a[1..] + b;
      Associative(EscapedChar(a[0]), Escaped(a[1..]), Escaped(b));
    }
  }

  lemma {:induction false} EscapedPlain(a: string)
    requires forall c :: c in a ==> !Special(c)
    ensures Escaped(a) == a
  {
    if a != "" { EscapedPlain(a[1..]); }
  }

  lemma {:induction false} EscapedHas(v: string, c: char)
    requires c != '\\'
    ensures c in Escaped(v) <==> c in v
  {
    if v != "" {
      EscapedHas(v[1..], c);
      assert v == [v[0]] + v[1..];
    }
  }

  /** Escaping costs one character for each quote and each backslash, and nothing else. */
  lemma {:induction false} EscapedLength(v: string)
    ensures |Escaped(v)| == |v| + multiset(v)['"'] + multiset(v)['\\']
  {
    if v != "" {
      EscapedLength(v[1..]);
      assert v == [v[0]] + v[1..];
      assert multiset(v) == multiset{v[0]} + multiset(v[1..]);
    }
  }

  // ---------- the escaping loop ----------

  /** strcspn(p, "\"\\"), as a position. */
  function NextSpecial(s: string, p: nat): (q: nat)
    requires p <= |s|
    ensures p <= q <= |s| && (q < |s| ==> Special(s[q])) && forall i :: p <= i < q ==> !Special(s[i])
    decreases |s| - p
  {
    if p == |s| || Special(s[p]) then p else NextSpecial(s, p + 1)
  }

  /** sym_escape_string_value. */
  method EscapeStringValue(text: string) returns (res: string)
    ensures res == Quoted(text)
  {
    res := "\"";
    var p := 0;
    while true
      invariant p <= |text| && res == "\"" + Escaped(text[..p])
      decreases |text| - p
    {
      var q := NextSpecial(text, p);
      EscapedPart(text, p, q);
      Associative("\"", Escaped(text[..p]), text[p..q]);
      res := res + text[p..q];
      p := q;
      if p == |text| { break; }
      EscapedNext(text, p);
      Associative("\"", Escaped(text[..p]), "\\" + [text[p]]);
      res := res + ("\\" + [text[p]]);
      p := p + 1;
    }
    assert text[..p] == text;
    res := res + "\"";
  }

  lemma EscapedPart(text: string, p: nat, q: nat)
    requires p <= q <= |text| && forall i :: p <= i < q ==> !Special(text[i])
    ensures Escaped(text[..q]) == Escaped(text[..p]) + text[p..q]
  {
    assert text[..q] == text[..p] + text[p..q];
    EscapedPlainEnd(text[..p], text[p..q]);
  }

  lemma EscapedPlainEnd(front: string, plain: string)
    requires forall i :: 0 <= i < |plain| ==> !Special(plain[i])
    ensures Escaped(front + plain) == Escaped(front) + plain
  {
    EscapedPlain(plain);
    EscapedConcat(front, plain);
  }

  lemma EscapedAppend(front: string, last: char)
    ensures Escaped(front + [last]) == Escaped(front) + EscapedChar(last)
  {
    EscapedConcat(front, [last]);
    assert Escaped([last]) == EscapedChar(last);
  }

  lemma EscapedNext(text: string, p: nat)
    requires p < |text| && Special(text[p])
    ensures Escaped(text[..p + 1]) == Escaped(text[..p]) + ("\\" + [text[p]])
  {
    EscapedAppend(text[..p], text[p]);
    assert text[..p] + [text[p]] == text[..p + 1];
  }

  // ---------- the unescaping loop ----------

  /** The C string in a buffer from position i on. */
  function StringAt(buf: seq<char>, i: nat): string
    decreases |buf| - i
  {
    if i >= |buf| || buf[i] == '\0' then "" else [buf[i]] + StringAt(buf, i + 1)
  }

  /** The buffer holds a terminated string from i on. */
  ghost predicate Terminated(buf: seq<char>, i: nat) { i + |StringAt(buf, i)| < |buf| }

  lemma {:induction false} InString(buf: seq<char>, i: nat, n: nat)
    requires Terminated(buf, i) && n <= |StringAt(buf, i)|
    ensures buf[i + n] == '\0' <==> n == |StringAt(buf, i)|
    ensures n < |StringAt(buf, i)| ==> buf[i + n] == StringAt(buf, i)[n]
    ensures StringAt(buf, i + n) == StringAt(buf, i)[n..] && Terminated(buf, i + n)
    decreases n
  {
    if n > 0 { InString(buf, i + 1, n - 1); }
  }

  lemma StringChars(buf: seq<char>, i: nat)
    requires Terminated(buf, i)
    ensures forall k :: 0 <= k < |StringAt(buf, i)| ==> buf[i + k] == StringAt(buf, i)[k] && StringAt(buf, i)[k] != '\0'
  {
    forall k | 0 <= k < |StringAt(buf, i)|
      ensures buf[i + k] == StringAt(buf, i)[k] && StringAt(buf, i)[k] != '\0'
    {
      InString(buf, i, k);
    }
  }

  /** A prefix of the string at p2, behind what stands from p to p2. */
  lemma PartlyRead(buf: seq<char>, p: nat, p2: nat, n: nat)
    requires p <= p2 && Terminated(buf, p2) && n <= |StringAt(buf, p2)| && '\0' !in buf[p..p2]
    ensures buf[p..p2 + n] == buf[p..p2] + StringAt(buf, p2)[..n] && '\0' !in buf[p..p2 + n]
  {
    StringChars(buf, p2);
    var s, done, all := StringAt(buf, p2), buf[p..p2], buf[p..p2 + n];
    forall k | 0 <= k < |all| ensures all[k] == (done + s[..n])[k] && all[k] != '\0' {
      if k < p2 - p { assert done[k] in done; } else { assert buf[p2 + (k - (p2 - p))] == s[k - (p2 - p)]; }
    }
  }

  lemma StringIsSlice(buf: seq<char>, i: nat, n: nat)
    requires i + n < |buf| && buf[i + n] == '\0' && '\0' !in buf[i..i + n]
    ensures StringAt(buf, i) == buf[i..i + n]
  {
    var s := buf[i..i + n];
    forall k | 0 <= k < |s| ensures buf[i + k] == s[k] && s[k] != '\0' {
      assert s[k] in s;
    }
    StringIs(buf, i, s);
  }

  lemma {:induction false} StringIs(buf: seq<char>, i: nat, s: string)
    requires i + |s| < |buf| && buf[i + |s|] == '\0'
    requires forall k :: 0 <= k < |s| ==> buf[i + k] == s[k] && s[k] != '\0'
    ensures StringAt(buf, i) == s
    decreases |s|
  {
    if s != "" {
      assert buf[i + 0] == s[0];
      forall k | 0 <= k < |s[1..]| ensures buf[i + 1 + k] == s[1..][k] && s[1..][k] != '\0' {
        assert buf[i + (k + 1)] == s[k + 1];
      }
      StringIs(buf, i + 1, s[1..]);
      assert s == [s[0]] + s[1..];
    }
  }

  method StrLen(buf: array<char>, i: nat) returns (n: nat)
    requires i <= buf.Length && Terminated(buf[..], i)
    ensures n == |StringAt(buf[..], i)|
  {
    ghost var b := buf[..];
    n := 0;
    InString(b, i, 0);
    while buf[i + n] != '\0'
      invariant n <= |StringAt(b, i)| && (b[i + n] == '\0' <==> n == |StringAt(b, i)|)
      decreases |StringAt(b, i)| - n
    {
      n := n + 1;
      InString(b, i, n);
    }
  }

  /** memmove by one place to the left. */
  method ShiftLeft(buf: array<char>, to: nat, n: nat)
    requires to + n < buf.Length
    modifies buf
    ensures forall i :: to <= i < to + n ==> buf[i] == old(buf[i + 1])
    ensures forall i :: 0 <= i < buf.Length && !(to <= i < to + n) ==> buf[i] == old(buf[i])
  {
    forall i | to <= i < to + n { buf[i] := buf[i + 1]; }
  }

  /** strpbrk(p2, "\"\\"). */
  method FindSpecial(buf: array<char>, p: nat) returns (found: bool, q: nat)
    requires p <= buf.Length && Terminated(buf[..], p)
    ensures p <= q <= p + |StringAt(buf[..], p)|
    ensures q - p == NextSpecial(StringAt(buf[..], p), 0) && (found <==> q < p + |StringAt(buf[..], p)|)
  {
    ghost var b, s := buf[..], StringAt(buf[..], p);
    q := p;
    InString(b, p, 0);
    while buf[q] != '\0' && !Special(buf[q])
      invariant p <= q <= p + |s| && NextSpecial(s, 0) == NextSpecial(s, q - p)
      invariant (b[q] == '\0' <==> q == p + |s|) && (q < p + |s| ==> b[q] == s[q - p])
      decreases p + |s| - q
    {
      q := q + 1;
      InString(b, p, q - p);
    }
    found := buf[q] != '\0';
  }

  // ---------- one round of the loop, on the text ----------

  function Prefixed(done: string, r: Option<string>): Option<string> {
    match r case None => None case Some(v) => Some(done + v)
  }

  lemma {:induction false} UnquotedPlain(t: string, n: nat)
    requires n <= |t| && forall i :: 0 <= i < n ==> !Special(t[i])
    ensures Unquoted(t) == Prefixed(t[..n], Unquoted(t[n..]))
  {
    if n > 0 {
      UnquotedPlain(t[1..], n - 1);
      assert t[1..][n - 1..] == t[n..] && [t[0]] + t[1..][..n - 1] == t[..n];
      match Unquoted(t[n..]) {
        case None =>
        case Some(v) => assert [t[0]] + (t[1..][..n - 1] + v) == t[..n] + v;
      }
    } else {
      assert t[0..] == t && t[..0] == "";
      PrefixedEmpty(Unquoted(t));
    }
  }

  lemma PrefixedEmpty(r: Option<string>)
    ensures Prefixed("", r) == r
  {
    match r { case None => case Some(v) => assert "" + v == v; }
  }

  lemma UnquotedEscape(r: string)
    requires r != "" && r[0] == '\\'
    ensures Unquoted(r) == if |r| == 1 then None else Prefixed([r[1]], Unquoted(r[2..]))
  {
  }

  /** One round: the plain text before an escaped character, and that character. */
  lemma Round(goal: Option<string>, done: string, t: string, n: nat)
    requires n < |t| && t[n] == '\\' && forall i :: 0 <= i < n ==> !Special(t[i])
    requires goal == Prefixed(done, Unquoted(t))
    ensures |t| == n + 1 ==> goal == None
    ensures |t| > n + 1 ==> goal == Prefixed(done + t[..n] + [t[n + 1]], Unquoted(t[n + 2..]))
  {
    UnquotedPlain(t, n);
    PrefixedTwice(done, t[..n], Unquoted(t[n..]));
    UnquotedEscape(t[n..]);
    if |t| > n + 1 {
      assert t[n..][2..] == t[n + 2..] && t[n..][1] == t[n + 1];
      PrefixedTwice(done + t[..n], [t[n + 1]], Unquoted(t[n + 2..]));
    }
  }

  /** The last round: everything before the closing quote. */
  lemma LastRound(goal: Option<string>, done: string, t: string, n: nat)
    requires n < |t| && t[n] == '"' && forall i :: 0 <= i < n ==> !Special(t[i])
    requires goal == Prefixed(done, Unquoted(t))
    ensures goal == Some(done + t[..n])
  {
    UnquotedPlain(t, n);
    assert t[n..][0] == '"';
    assert t[..n] + "" == t[..n];
  }

  lemma PrefixedTwice(a: string, b: string, r: Option<string>)
    ensures Prefixed(a, Prefixed(b, r)) == Prefixed(a + b, r)
  {
    match r { case None => case Some(v) => Associative(a, b, v); }
  }

  lemma NoQuoteNoValue(t: string)
    requires forall i :: 0 <= i < |t| ==> !Special(t[i])
    ensures Unquoted(t) == None
  {
    UnquotedPlain(t, |t|);
    assert t[|t|..] == "";
  }

  /** Taking the backslash away: the character behind it stays, and the rest follows one place earlier. */
  lemma AfterShift(before: seq<char>, q: nat, n: nat, after: seq<char>)
    requires q <= |before| == |after| && Terminated(before, q) && n == |StringAt(before, q)| > 0
    requires forall i :: q <= i < q + n ==> after[i] == before[i + 1]
    requires forall i :: q + n <= i < |before| ==> after[i] == before[i]
    ensures Terminated(after, q + 1)
    ensures if n == 1 then after[q] == '\0' && StringAt(after, q + 1) == ""
            else after[q] == StringAt(before, q)[1] && StringAt(after, q + 1) == StringAt(before, q)[2..]
  {
    var s := StringAt(before, q);
    InString(before, q, n);
    if n == 1 {
      StringIs(after, q + 1, "");
    } else {
      InString(before, q, 1);
      forall k | 0 <= k < |s[2..]| ensures after[q + 1 + k] == s[2..][k] && s[2..][k] != '\0' {
        InString(before, q, k + 2);
        assert after[q + 1 + k] == before[q + 2 + k];
      }
      assert after[q + n - 1] == before[q + n];
      StringIs(after, q + 1, s[2..]);
    }
  }

  /** memmove(q, q + 1, strlen(q)). */
  method DropBackslash(buf: array<char>, q: nat)
    requires q <= buf.Length && Terminated(buf[..], q) && StringAt(buf[..], q) != ""
    modifies buf
    ensures forall i :: 0 <= i < q ==> buf[i] == old(buf[i])
    ensures q + 1 <= buf.Length && Terminated(buf[..], q + 1)
    ensures var s := old(StringAt(buf[..], q));
            if |s| == 1 then buf[q] == '\0' && StringAt(buf[..], q + 1) == ""
            else buf[q] == s[1] && StringAt(buf[..], q + 1) == s[2..]
  {
    ghost var before := buf[..];
    var len := StrLen(buf, q);
    ShiftLeft(buf, q, len);
    AfterShift(before, q, len, buf[..]);
  }

  /** Between two rounds: what stands from p to p2 is done, what follows p2 is to be done. Behind a
      backslash at the very end there is nothing left, and no value. */
  ghost predicate Owes(buf: seq<char>, p: nat, p2: nat, goal: Option<string>)
    requires p <= p2 <= |buf|
  {
    if '\0' in buf[p..p2] then goal == None && StringAt(buf, p2) == ""
    else goal == Prefixed(buf[p..p2], Unquoted(StringAt(buf, p2)))
  }

  /** Owes, unfolded only where it is asked for. */
  ghost predicate Midway(buf: seq<char>, p: nat, p2: nat, goal: Option<string>) {
    && p <= p2 <= |buf| && Terminated(buf, p2)
    && forall g: Option<string> {:trigger Owes(buf, p, p2, g)} :: g == goal ==> Owes(buf, p, p2, g)
  }

  lemma SameSlice(before: seq<char>, after: seq<char>, p: nat, q: nat)
    requires p <= q <= |before| == |after| && forall i :: p <= i < q ==> after[i] == before[i]
    ensures after[p..q] == before[p..q]
  {
  }

  /** A round that finds nothing. */
  lemma MidwayNone(buf: seq<char>, p: nat, p2: nat, goal: Option<string>)
    requires Midway(buf, p, p2, goal) && NextSpecial(StringAt(buf, p2), 0) == |StringAt(buf, p2)|
    ensures goal == None
  {
    assert Owes(buf, p, p2, goal);
    NoQuoteNoValue(StringAt(buf, p2));
  }

  /** A round that takes a backslash away. */
  lemma MidwayNext(before: seq<char>, after: seq<char>, p: nat, p2: nat, n: nat, goal: Option<string>)
    requires Midway(before, p, p2, goal) && n < |StringAt(before, p2)| && |after| == |before|
    requires StringAt(before, p2)[n] == '\\' && forall i :: 0 <= i < n ==> !Special(StringAt(before, p2)[i])
    requires forall i :: 0 <= i < p2 + n ==> after[i] == before[i]
    requires Terminated(after, p2 + n + 1)
    requires var t := StringAt(before, p2);
             if |t| == n + 1 then after[p2 + n] == '\0' && StringAt(after, p2 + n + 1) == ""
             else after[p2 + n] == t[n + 1] && StringAt(after, p2 + n + 1) == t[n + 2..]
    ensures Midway(after, p, p2 + n + 1, goal) && |StringAt(after, p2 + n + 1)| < |StringAt(before, p2)|
  {
    assert Owes(before, p, p2, goal);
    var t, q := StringAt(before, p2), p2 + n;
    PartlyRead(before, p, p2, n);
    Round(goal, before[p..p2], t, n);
    SameSlice(before, after, p, q);
    assert after[p..q + 1] == after[p..q] + [after[q]];
    if |t| > n + 1 { InString(before, p2, n + 1); }
  }

  lemma EndText(before: seq<char>, after: seq<char>, p: nat, p2: nat, n: nat)
    requires p <= p2 && Terminated(before, p2) && n <= |StringAt(before, p2)| && '\0' !in before[p..p2]
    requires |after| == |before| && (forall i :: 0 <= i < p2 + n ==> after[i] == before[i]) && after[p2 + n] == '\0'
    ensures StringAt(after, p) == before[p..p2] + StringAt(before, p2)[..n]
  {
    PartlyRead(before, p, p2, n);
    SameSlice(before, after, p, p2 + n);
    StringIsSlice(after, p, p2 + n - p);
  }

  /** The round that finds the closing quote. */
  lemma MidwayEnd(before: seq<char>, after: seq<char>, p: nat, p2: nat, n: nat, goal: Option<string>)
    requires Midway(before, p, p2, goal) && n < |StringAt(before, p2)| && |after| == |before|
    requires StringAt(before, p2)[n] == '"' && forall i :: 0 <= i < n ==> !Special(StringAt(before, p2)[i])
    requires (forall i :: 0 <= i < p2 + n ==> after[i] == before[i]) && after[p2 + n] == '\0'
    ensures goal == Some(StringAt(after, p))
  {
    assert Owes(before, p, p2, goal);
    EndText(before, after, p, p2, n);
    LastRound(goal, before[p..p2], StringAt(before, p2), n);
  }

  /** The closing quote becomes the terminator. */
  method CloseAt(buf: array<char>, p: nat, p2: nat, q: nat, ghost goal: Option<string>)
    requires Midway(buf[..], p, p2, goal) && p2 <= q < p2 + |StringAt(buf[..], p2)|
    requires q - p2 == NextSpecial(StringAt(buf[..], p2), 0) && StringAt(buf[..], p2)[q - p2] == '"'
    modifies buf
    ensures forall i :: 0 <= i < p ==> buf[i] == old(buf[i])
    ensures goal == Some(StringAt(buf[..], p))
  {
    ghost var before := buf[..];
    buf[q] := '\0';
    MidwayEnd(before, buf[..], p, p2, q - p2, goal);
  }

  /** A backslash is taken away, and the character behind it is passed over. */
  method UnescapeAt(buf: array<char>, p: nat, p2: nat, q: nat, ghost goal: Option<string>)
    requires Midway(buf[..], p, p2, goal) && p2 <= q < p2 + |StringAt(buf[..], p2)|
    requires q - p2 == NextSpecial(StringAt(buf[..], p2), 0) && StringAt(buf[..], p2)[q - p2] == '\\'
    modifies buf
    ensures forall i :: 0 <= i < p ==> buf[i] == old(buf[i])
    ensures Midway(buf[..], p, q + 1, goal) && |StringAt(buf[..], q + 1)| < |old(StringAt(buf[..], p2))|
  {
    ghost var before := buf[..];
    InString(before, p2, q - p2);
    DropBackslash(buf, q);
    MidwayNext(before, buf[..], p, p2, q - p2, goal);
  }

  /** One round of the loop: to behind the next escaped character, or to the closing quote. */
  method UnescapeRound(buf: array<char>, p: nat, p2: nat, ghost goal: Option<string>)
    returns (more: bool, ok: bool, p2': nat)
    requires Midway(buf[..], p, p2, goal)
    modifies buf
    ensures forall i :: 0 <= i < p ==> buf[i] == old(buf[i])
    ensures more ==> Midway(buf[..], p, p2', goal) && |StringAt(buf[..], p2')| < |old(StringAt(buf[..], p2))|
    ensures !more ==> (ok <==> goal.Some?) && (ok ==> StringAt(buf[..], p) == goal.value)
  {
    var found, q := FindSpecial(buf, p2);
    if !found {
      MidwayNone(buf[..], p, p2, goal);
      return false, false, q;
    }
    InString(buf[..], p2, q - p2);
    if buf[q] == '"' {
      CloseAt(buf, p, p2, q, goal);
      return false, true, q;
    }
    UnescapeAt(buf, p, p2, q, goal);
    more, ok, p2' := true, false, q + 1;
  }

  /** The string branch of conf_set_sym_val: unescapes the text in its buffer, up to its closing quote. */
  method UnescapeInPlace(buf: array<char>, p: nat) returns (ok: bool)
    requires p <= buf.Length && Terminated(buf[..], p)
    modifies buf
    ensures forall i :: 0 <= i < p ==> buf[i] == old(buf[i])
    ensures ok <==> Unquoted(old(StringAt(buf[..], p))).Some?
    ensures ok ==> StringAt(buf[..], p) == Unquoted(old(StringAt(buf[..], p))).value
  {
    var p2, more := p, true;
    ok := false;
    ghost var goal := Unquoted(StringAt(buf[..], p));
    PrefixedEmpty(goal);
    assert buf[p..p] == "";
    while more
      invariant forall i :: 0 <= i < p ==> buf[i] == old(buf[i])
      invariant more ==> Midway(buf[..], p, p2, goal)
      invariant !more ==> (ok <==> goal.Some?) && (ok ==> StringAt(buf[..], p) == goal.value)
      decreases more, |StringAt(buf[..], p2)|
    {
      more, ok, p2 := UnescapeRound(buf, p, p2, goal);
    }
  }
}

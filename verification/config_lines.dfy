/** Configuration files: the lines written for a list of symbols, and what reading them sets. */
module ConfigLines {
  import opened Common
  import opened ConfigStrings
  import opened KconfigSyntax

  const CONFIG: string := "CONFIG_"
  const UNSET: string := "is not set"

  /** A value read from a file: a tristate, or the text of a number or string. */
  datatype Value = TriValue(tri: Tri) | TextValue(text: string)

  type Kinds = map<string, SymbolType>

  // ---------- valid numbers ----------

  predicate IsDigit(c: char) { '0' <= c <= '9' }

  predicate IsHexDigit(c: char) { IsDigit(c) || 'a' <= c <= 'f' || 'A' <= c <= 'F' }

  predicate AllDigits(s: string) { forall c :: c in s ==> IsDigit(c) }

  predicate AllHexDigits(s: string) { forall c :: c in s ==> IsHexDigit(c) }

  /** An optional minus, and then 0 or digits without a leading zero. */
  predicate ValidInt(s: string) {
    var digits := if CharAt(s, 0) == '-' then s[1..] else s;
    digits != "" && AllDigits(digits) && (digits[0] == '0' ==> |digits| == 1)
  }

  /** An optional 0x, and then hexadecimal digits. */
  predicate ValidHex(s: string) {
    var digits := if CharAt(s, 0) == '0' && (CharAt(s, 1) == 'x' || CharAt(s, 1) == 'X') then s[2..] else s;
    digits != "" && AllHexDigits(digits)
  }

  /** sym_string_valid. */
  method StringValid(kind: SymbolType, str: string) returns (valid: bool)
    requires '\0' !in str
    ensures kind == Int ==> (valid <==> ValidInt(str))
    ensures kind == Hex ==> (valid <==> ValidHex(str))
    ensures kind == Str ==> valid
  {
    match kind {
      case Str => valid := true;
      case Int =>
        var p := 0;
        if CharAt(str, p) == '-' { p := p + 1; }
        ghost var digits := str[p..];
        if !IsDigit(CharAt(str, p)) { return false; }
        assert CharAt(str, p) == digits[0];
        if CharAt(str, p) == '0' && CharAt(str, p + 1) != '\0' { return false; }
        valid := AllFrom(str, p + 1, false);
      case Hex =>
        var p := 0;
        if CharAt(str, 0) == '0' && (CharAt(str, 1) == 'x' || CharAt(str, 1) == 'X') { p := 2; }
        if !IsHexDigit(CharAt(str, p)) { return false; }
        valid := AllFrom(str, p + 1, true);
      case _ =>
        valid := CharAt(str, 0) in "yYmMnN";
    }
  }

  /** The loop over the digits behind the first one. */
  method AllFrom(str: string, from: nat, hex: bool) returns (all: bool)
    requires 0 < from <= |str|
    ensures all <==> if hex then AllHexDigits(str[from..]) else AllDigits(str[from..])
  {
    var p := from;
    while p < |str|
      invariant from <= p <= |str|
      invariant if hex then AllHexDigits(str[from..p]) else AllDigits(str[from..p])
    {
      assert str[from..p + 1] == str[from..p] + [str[p]];
      if !(if hex then IsHexDigit(str[p]) else IsDigit(str[p])) {
        assert str[p] == str[from..][p - from];
        return false;
      }
      p := p + 1;
    }
    assert str[from..p] == str[from..];
    all := true;
  }

  // ---------- the lines written ----------

  /** sym_get_string_value. */
  function Shown(modules: bool, v: Value): string {
    match v
    case TriValue(tri) => if tri == YES then "y" else if tri == MOD && modules then "m" else "n"
    case TextValue(text) => text
  }

  predicate IsTri(kind: SymbolType) { kind == Bool || kind == Tristate }

  function NotSet(name: string): string { "# " + CONFIG + name + " " + UNSET + "\n" }

  function Assigned(name: string, str: string): string { CONFIG + name + "=" + str + "\n" }

  /** What conf_write_symbol writes for one symbol. */
  function Printed(kind: SymbolType, modules: bool, name: string, v: Value): string {
    if kind == Unknown then ""
    else
      var str := if kind == Str then Quoted(Shown(modules, v)) else Shown(modules, v);
      if IsTri(kind) && CharAt(str, 0) == 'n' then NotSet(name) else Assigned(name, str)
  }

  /** conf_write_symbol and kconfig_print_symbol. */
  method WriteSymbol(kind: SymbolType, modules: bool, name: string, v: Value) returns (written: string)
    ensures written == Printed(kind, modules, name, v)
  {
    if kind == Unknown { return ""; }
    var str := Shown(modules, v);
    if kind == Str { str := EscapeStringValue(str); }
    if IsTri(kind) && CharAt(str, 0) == 'n' { return "# " + CONFIG + name + " " + UNSET + "\n"; }
    written := CONFIG + name + "=" + str + "\n";
  }

  /** The lines as they look in a file. */
  lemma PrintedForms(name: string, text: string)
    ensures Printed(Bool, true, name, TriValue(YES)) == "CONFIG_" + name + "=y\n"
    ensures Printed(Bool, true, name, TriValue(NO)) == "# CONFIG_" + name + " is not set\n"
    ensures Printed(Tristate, true, name, TriValue(MOD)) == "CONFIG_" + name + "=m\n"
    ensures Printed(Tristate, false, name, TriValue(MOD)) == "# CONFIG_" + name + " is not set\n"
    ensures Printed(Int, true, name, TextValue(text)) == "CONFIG_" + name + "=" + text + "\n"
    ensures Printed(Str, true, name, TextValue("a\"b")) == "CONFIG_" + name + "=\"a\\\"b\"\n"
  {
    var quoted := Quoted("a\"b");
    assert "a\"b"[1..] == "\"b" && "\"b"[1..] == "b" && "b"[1..] == "";
    assert quoted == "\"a\\\"b\"";
    assert "# " + CONFIG == "# CONFIG_" && " " + UNSET + "\n" == " is not set\n";
    assert NotSet(name) == "# CONFIG_" + name + " is not set\n";
    assert Assigned(name, "y") == "CONFIG_" + name + "=y\n";
    assert Assigned(name, "m") == "CONFIG_" + name + "=m\n";
    assert Assigned(name, quoted) == "CONFIG_" + name + "=\"a\\\"b\"\n";
  }

  // ---------- what a line sets ----------

  /** strchr, as a position; the length if there is none. */
  function StrChr(s: string, c: char, i: nat): (k: nat)
    requires i <= |s|
    ensures i <= k <= |s| && (k < |s| ==> s[k] == c) && forall j :: i <= j < k ==> s[j] != c
    decreases |s| - i
  {
    if i == |s| || s[i] == c then i else StrChr(s, c, i + 1)
  }

  predicate HasAt(s: string, i: nat, w: string) { i + |w| <= |s| && s[i..i + |w|] == w }

  /** The value text of a line: up to the line end, without a carriage return before it. */
  function Cut(p: string): string {
    var k := StrChr(p, '\n', 0);
    if k == |p| then p else if k > 0 && p[k - 1] == '\r' then p[..k - 1] else p[..k]
  }

  /** What conf_set_sym_val makes of a value text. */
  function ValueOf(kind: SymbolType, p: string): Option<Value> {
    match kind
    case Unknown => None
    case Str =>
      if CharAt(p, 0) != '"' then None
      else match Unquoted(p[1..]) { case None => None case Some(v) => Some(TextValue(v)) }
    case Int => if ValidInt(p) then Some(TextValue(p)) else None
    case Hex => if ValidHex(p) then Some(TextValue(p)) else None
    case _ =>
      if kind == Tristate && CharAt(p, 0) == 'm' then Some(TriValue(MOD))
      else if CharAt(p, 0) == 'y' then Some(TriValue(YES))
      else if CharAt(p, 0) == 'n' then Some(TriValue(NO))
      else None
  }

  type Effect = Option<(string, Value)>

  /** A comment line unsets a symbol if it has the form written for that. */
  function CommentEffect(kinds: Kinds, line: string): Effect {
    if !HasAt(line, 2, CONFIG) then None
    else
      var p := StrChr(line, ' ', 9);
      if p == |line| || !HasAt(line, p + 1, UNSET) then None
      else
        var name := line[9..p];
        if name in kinds && IsTri(kinds[name]) then Some((name, TriValue(NO))) else None
  }

  function AssignmentEffect(kinds: Kinds, line: string): Effect
    requires HasAt(line, 0, CONFIG)
  {
    var p := StrChr(line, '=', 7);
    if p == |line| || line[7..p] !in kinds then None
    else
      var name := line[7..p];
      Named(name, ValueOf(kinds[name], Cut(line[p + 1..])))
  }

  function Named(name: string, v: Option<Value>): Effect {
    match v case None => None case Some(value) => Some((name, value))
  }

  /** The symbol a line sets, and to what, if any. */
  function EffectOf(kinds: Kinds, line: string): Effect {
    if CharAt(line, 0) == '#' then CommentEffect(kinds, line)
    else if HasAt(line, 0, CONFIG) then AssignmentEffect(kinds, line)
    else None
  }

  /** The length of the first line, with its line end. */
  function LineLength(file: string): (n: nat)
    ensures n <= |file| && (file != "" ==> n > 0)
  {
    var k := StrChr(file, '\n', 0);
    if k == |file| then |file| else k + 1
  }

  function Apply(defs: map<string, Value>, e: Effect): map<string, Value> {
    match e case None => defs case Some(s) => defs[s.0 := s.1]
  }

  /** Line by line. */
  function ReadAll(kinds: Kinds, defs: map<string, Value>, file: string): map<string, Value>
    decreases |file|
  {
    if file == "" then defs
    else
      var n := LineLength(file);
      ReadAll(kinds, Apply(defs, FirstEffect(kinds, file)), file[n..])
  }

  /** What the first line sets. */
  function FirstEffect(kinds: Kinds, file: string): Effect { EffectOf(kinds, file[..LineLength(file)]) }

  lemma FirstEffectIs(kinds: Kinds, file: string, line: string)
    requires |line| == LineLength(file) && file[..|line|] == line
    ensures FirstEffect(kinds, file) == EffectOf(kinds, line)
  {
  }

  // ---------- one line there and back ----------

  predicate GoodName(name: string) {
    forall c :: c in name ==> c != ' ' && c != '=' && c != '\n'
  }

  /** The values a symbol of this type can get back from a file. */
  predicate Storable(kind: SymbolType, modules: bool, v: Value) {
    match kind
    case Unknown => false
    case Bool => v.TriValue? && v.tri != MOD
    case Tristate => v.TriValue? && (v.tri == MOD ==> modules)
    case Int => v.TextValue? && ValidInt(v.text)
    case Hex => v.TextValue? && ValidHex(v.text)
    case Str => v.TextValue? && '\n' !in v.text
  }

  lemma StrChrIs(s: string, c: char, i: nat, k: nat)
    requires i <= k < |s| && s[k] == c && forall j :: i <= j < k ==> s[j] != c
    ensures StrChr(s, c, i) == k
  {
  }

  lemma Middle(a: string, b: string, c: string)
    ensures HasAt(a + b + c, |a|, b)
  {
  }

  lemma NotSetIsRead(kinds: Kinds, name: string)
    requires GoodName(name) && name in kinds
    ensures EffectOf(kinds, NotSet(name)) == if IsTri(kinds[name]) then Some((name, TriValue(NO))) else None
  {
    var line := NotSet(name);
    var head := "# " + CONFIG;
    assert line == head + name + " " + UNSET + "\n";
    assert line[2..9] == CONFIG;
    forall j | 9 <= j < 9 + |name| ensures line[j] != ' ' { assert line[j] == name[j - 9] && name[j - 9] in name; }
    StrChrIs(line, ' ', 9, 9 + |name|);
    assert line[9..9 + |name|] == name;
    Middle(head + name + " ", UNSET, "\n");
  }

  lemma AssignedIsRead(kinds: Kinds, name: string, p: string)
    requires GoodName(name) && name in kinds
    ensures EffectOf(kinds, CONFIG + name + "=" + p)
         == Named(name, ValueOf(kinds[name], Cut(p)))
  {
    var line := CONFIG + name + "=" + p;
    assert line[0..7] == CONFIG;
    forall j | 7 <= j < 7 + |name| ensures line[j] != '=' { assert line[j] == name[j - 7] && name[j - 7] in name; }
    StrChrIs(line, '=', 7, 7 + |name|);
    assert line[7..7 + |name|] == name;
    assert line[7 + |name| + 1..] == p;
  }

  /** The first line of a written text, up to the first line end in the value. */
  lemma FirstLineOfAssigned(name: string, str: string, rest: string)
    requires GoodName(name)
    ensures var k := StrChr(str, '\n', 0);
            LineLength(Assigned(name, str) + rest) == 7 + |name| + 1 + k + 1
            && (Assigned(name, str) + rest)[..7 + |name| + 1 + k + 1] == CONFIG + name + "=" + (str[..k] + "\n")
  {
    var k, file := StrChr(str, '\n', 0), Assigned(name, str) + rest;
    var at := 7 + |name| + 1 + k;
    assert file == CONFIG + name + "=" + (str + "\n" + rest);
    assert file[at] == (str + "\n" + rest)[k] == '\n';
    forall j | 0 <= j < at ensures file[j] != '\n' {
      if j < 7 {
        assert file[j] == CONFIG[j];
      } else if j < 7 + |name| {
        assert file[j] == name[j - 7] && name[j - 7] in name;
      } else if j > 7 + |name| {
        assert file[j] == str[j - 8 - |name|];
      }
    }
    StrChrIs(file, '\n', 0, at);
    assert file[..at + 1] == CONFIG + name + "=" + (str[..k] + "\n");
  }

  lemma FirstLineOfNotSet(name: string, rest: string)
    requires GoodName(name)
    ensures LineLength(NotSet(name) + rest) == |NotSet(name)| && (NotSet(name) + rest)[..|NotSet(name)|] == NotSet(name)
  {
    var text := NotSet(name);
    var file, at := text + rest, |text| - 1;
    var head, tail := "# " + CONFIG, " " + UNSET;
    assert text == head + name + tail + "\n";
    forall j | 0 <= j < at ensures file[j] != '\n' {
      if j < |head| { assert file[j] == head[j]; }
      else if j < |head| + |name| { assert file[j] == name[j - |head|] && name[j - |head|] in name; }
      else { assert file[j] == tail[j - |head| - |name|]; }
    }
    StrChrIs(file, '\n', 0, at);
  }

  /** The value text that a line end cuts off. */
  function Trimmed(s: string): string {
    if s != "" && s[|s| - 1] == '\r' then s[..|s| - 1] else s
  }

  lemma CutIs(s: string)
    requires '\n' !in s
    ensures Cut(s + "\n") == Trimmed(s)
  {
    var p := s + "\n";
    assert forall j :: 0 <= j < |s| ==> p[j] == s[j] && s[j] in s;
    StrChrIs(p, '\n', 0, |s|);
    assert p[..|s|] == s;
    if s != "" { assert p[..|s| - 1] == s[..|s| - 1]; }
  }

  /** The value text in the first line of an assignment. */
  function FirstText(str: string): string { Trimmed(str[..StrChr(str, '\n', 0)]) }

  /** What is read from the first line of an assignment. */
  lemma FirstLineIsRead(kinds: Kinds, name: string, str: string, rest: string)
    requires GoodName(name) && name in kinds
    ensures FirstEffect(kinds, Assigned(name, str) + rest) == Named(name, ValueOf(kinds[name], FirstText(str)))
  {
    var k := StrChr(str, '\n', 0);
    FirstLineOfAssigned(name, str, rest);
    FirstEffectIs(kinds, Assigned(name, str) + rest, CONFIG + name + "=" + (str[..k] + "\n"));
    CutIs(str[..k]);
    AssignedIsRead(kinds, name, str[..k] + "\n");
  }

  lemma NumberHasNoLineEnd(s: string)
    requires ValidInt(s) || ValidHex(s)
    ensures '\n' !in s && '\r' !in s
  {
    var digits := if CharAt(s, 0) == '-' then s[1..] else if ValidInt(s) then s
                  else if CharAt(s, 0) == '0' && (CharAt(s, 1) == 'x' || CharAt(s, 1) == 'X') then s[2..] else s;
    forall c | c in s ensures c != '\n' && c != '\r' {
      var i :| 0 <= i < |s| && s[i] == c;
      var at := |s| - |digits|;
      if i >= at { assert digits[i - at] == c && c in digits; }
    }
  }

  lemma NumberIsRestored(kind: SymbolType, s: string)
    requires kind == Int || kind == Hex
    ensures ValueOf(kind, FirstText(s)) == Some(TextValue(s))
       <==> if kind == Int then ValidInt(s) else ValidHex(s)
  {
    var k := StrChr(s, '\n', 0);
    if ValidInt(s) || ValidHex(s) {
      NumberHasNoLineEnd(s);
      assert s[..k] == s;
      assert s != "" ==> s[|s| - 1] in s;
    }
  }

  lemma StringIsRestored(s: string)
    requires '\n' !in s
    ensures ValueOf(Str, FirstText(Quoted(s))) == Some(TextValue(s))
  {
    var str := Quoted(s);
    EscapedHas(s, '\n');
    assert '\n' !in str;
    assert str[..|str|] == str && StrChr(str, '\n', 0) == |str|;
    assert str[|str| - 1] == '"';
    assert str[1..] == Escaped(s) + ("\"" + "");
    UnquotedEscaped(s, "");
  }

  lemma BrokenStringIsLost(s: string)
    requires '\n' in s
    ensures ValueOf(Str, FirstText(Quoted(s))) == None
  {
    var before := s[..StrChr(s, '\n', 0)];
    QuotedUpToLineEnd(s);
    TrimmedEscaped(before);
  }

  lemma QuotedUpToLineEnd(s: string)
    requires '\n' in s
    ensures var str, before := Quoted(s), s[..StrChr(s, '\n', 0)];
            str[..StrChr(str, '\n', 0)] == "\"" + Escaped(before)
  {
    var m := StrChr(s, '\n', 0);
    var before, behind := s[..m], s[m..];
    assert s == before + behind && behind[0] == '\n';
    EscapedConcat(before, behind);
    EscapedHas(before, '\n');
    var head, tail := "\"" + Escaped(before), Escaped(behind) + "\"";
    Associative("\"", Escaped(before), Escaped(behind));
    Associative(head, Escaped(behind), "\"");
    assert '\n' !in head;
    CutAtLineEnd(head, tail);
  }

  lemma CutAtLineEnd(a: string, b: string)
    requires '\n' !in a && b != "" && b[0] == '\n'
    ensures var s := a + b; s[..StrChr(s, '\n', 0)] == a
  {
    var s := a + b;
    assert forall j :: 0 <= j < |a| ==> s[j] == a[j] && a[j] in a;
    StrChrIs(s, '\n', 0, |a|);
  }

  /** Cutting a carriage return off leaves an escaped text. */
  lemma TrimmedEscaped(s: string)
    ensures var t := Trimmed("\"" + Escaped(s)); CharAt(t, 0) == '"' && Unquoted(t[1..]) == None
  {
    TrimmedNeedsQuote(s);
    TrimmedBehindQuote(Escaped(s));
  }

  lemma TrimmedNeedsQuote(s: string)
    ensures Unquoted(Trimmed(Escaped(s))) == None
  {
    if s == "" {
      UnquotedNeedsQuote(s);
    } else {
      assert s == s[..|s| - 1] + [s[|s| - 1]];
      TrimmedAppend(s[..|s| - 1], s[|s| - 1]);
      UnquotedNeedsQuote(s);
      UnquotedNeedsQuote(s[..|s| - 1]);
    }
  }

  lemma TrimmedAppend(front: string, last: char)
    ensures Trimmed(Escaped(front + [last])) == if last == '\r' then Escaped(front) else Escaped(front + [last])
  {
    EscapedFront(front, last);
  }

  lemma TrimmedBehindQuote(e: string)
    ensures Trimmed("\"" + e) == "\"" + Trimmed(e) && ("\"" + Trimmed(e))[1..] == Trimmed(e)
  {
  }

  lemma EscapedFront(front: string, last: char)
    ensures var e := Escaped(front + [last]);
            e != "" && e[|e| - 1] == last && (!Special(last) ==> e[..|e| - 1] == Escaped(front))
  {
    EscapedAppend(front, last);
    LastChar(Escaped(front), EscapedChar(last));
  }

  lemma LastChar(a: string, b: string)
    requires b != ""
    ensures (a + b)[|a + b| - 1] == b[|b| - 1] && (|b| == 1 ==> (a + b)[..|a + b| - 1] == a)
  {
  }

  lemma TextIsRestored(kind: SymbolType, modules: bool, v: Value)
    requires kind == Int || kind == Hex || kind == Str
    ensures var shown := Shown(modules, v);
            ValueOf(kind, FirstText(if kind == Str then Quoted(shown) else shown)) == Some(v) <==> Storable(kind, modules, v)
  {
    var shown := Shown(modules, v);
    if kind == Str {
      if '\n' in shown { BrokenStringIsLost(shown); } else { StringIsRestored(shown); }
    } else {
      NumberIsRestored(kind, shown);
    }
  }

  lemma TriIsRestored(kind: SymbolType, modules: bool, v: Value)
    requires IsTri(kind)
    ensures var shown := Shown(modules, v);
            (if CharAt(shown, 0) == 'n' then Some(TriValue(NO)) else ValueOf(kind, FirstText(shown))) == Some(v)
            <==> Storable(kind, modules, v)
  {
    var shown := Shown(modules, v);
    if v.TriValue? { assert StrChr(shown, '\n', 0) == 1 && shown[..1] == shown; }
  }

  /** Reading back the first line written for a symbol restores its value exactly if the value is one
      of the symbol's type: a tristate that is possible, a valid number, a string without line ends. */
  lemma RestoredExactly(kinds: Kinds, modules: bool, name: string, v: Value, rest: string)
    requires GoodName(name) && name in kinds && kinds[name] != Unknown
    ensures FirstEffect(kinds, Printed(kinds[name], modules, name, v) + rest) == Some((name, v))
       <==> Storable(kinds[name], modules, v)
  {
    var kind, shown := kinds[name], Shown(modules, v);
    var str := if kind == Str then Quoted(shown) else shown;
    if IsTri(kind) {
      TriIsRestored(kind, modules, v);
      if CharAt(str, 0) == 'n' {
        FirstLineOfNotSet(name, rest);
        FirstEffectIs(kinds, NotSet(name) + rest, NotSet(name));
        NotSetIsRead(kinds, name);
      } else {
        FirstLineIsRead(kinds, name, str, rest);
      }
    } else {
      TextIsRestored(kind, modules, v);
      FirstLineIsRead(kinds, name, str, rest);
    }
  }
}

/** Whole configuration files: reading back the lines written for any list of symbols restores every
    value. The reader works on line buffers and a table of the values set so far. */
module ConfigFile {
  import opened Common
  import opened KconfigSyntax
  import opened ConfigStrings
  import opened ConfigLines

  datatype Setting = Setting(name: string, value: Value)

  /** The lines written for a list of symbols. */
  function Print(kinds: Kinds, modules: bool, settings: seq<Setting>): string
    requires forall s :: s in settings ==> s.name in kinds
    decreases |settings|
  {
    if settings == [] then ""
    else
      Printed(kinds[settings[0].name], modules, settings[0].name, settings[0].value)
      + Print(kinds, modules, settings[1..])
  }

  /** The values that settings leave behind, one after the other. */
  function Stored(defs: map<string, Value>, settings: seq<Setting>): map<string, Value>
    decreases |settings|
  {
    if settings == [] then defs else Stored(defs[settings[0].name := settings[0].value], settings[1..])
  }

  lemma StorableIsOneLine(kind: SymbolType, modules: bool, name: string, v: Value, rest: string)
    requires GoodName(name) && Storable(kind, modules, v)
    ensures var text := Printed(kind, modules, name, v); text != "" && LineLength(text + rest) == |text|
  {
    var shown := Shown(modules, v);
    var str := if kind == Str then Quoted(shown) else shown;
    if IsTri(kind) && CharAt(str, 0) == 'n' {
      FirstLineOfNotSet(name, rest);
    } else {
      if kind == Str { EscapedHas(shown, '\n'); }
      if kind == Int || kind == Hex { NumberHasNoLineEnd(shown); }
      assert '\n' !in str;
      FirstLineOfAssigned(name, str, rest);
    }
  }

  /** The symbol is known, and can get its value back from a line. */
  predicate Fine(kinds: Kinds, modules: bool, s: Setting) {
    s.name in kinds && GoodName(s.name) && Storable(kinds[s.name], modules, s.value)
  }

  ghost predicate AllFine(kinds: Kinds, modules: bool, settings: seq<Setting>) {
    forall s {:trigger Fine(kinds, modules, s)} :: s in settings ==> Fine(kinds, modules, s)
  }

  /** Reading what was written for storable values sets exactly these values. */
  lemma {:induction false} ReadBack(kinds: Kinds, modules: bool, defs: map<string, Value>, settings: seq<Setting>)
    requires AllFine(kinds, modules, settings) && forall s :: s in settings ==> s.name in kinds
    ensures ReadAll(kinds, defs, Print(kinds, modules, settings)) == Stored(defs, settings)
    decreases |settings|
  {
    if settings != [] {
      var s, others := settings[0], settings[1..];
      assert Fine(kinds, modules, s);
      var text, rest := Printed(kinds[s.name], modules, s.name, s.value), Print(kinds, modules, others);
      StorableIsOneLine(kinds[s.name], modules, s.name, s.value, rest);
      RestoredExactly(kinds, modules, s.name, s.value, rest);
      assert (text + rest)[|text|..] == rest;
      ReadBack(kinds, modules, defs[s.name := s.value], others);
    }
  }

  predicate DistinctNames(settings: seq<Setting>) {
    forall i, j :: 0 <= i < j < |settings| ==> settings[i].name != settings[j].name
  }

  lemma {:induction false} StoredKeeps(defs: map<string, Value>, settings: seq<Setting>, name: string)
    requires forall s :: s in settings ==> s.name != name
    ensures name in Stored(defs, settings) <==> name in defs
    ensures name in defs ==> Stored(defs, settings)[name] == defs[name]
    decreases |settings|
  {
    if settings != [] { StoredKeeps(defs[settings[0].name := settings[0].value], settings[1..], name); }
  }

  lemma {:induction false} StoredHas(defs: map<string, Value>, settings: seq<Setting>, i: nat)
    requires DistinctNames(settings) && i < |settings|
    ensures settings[i].name in Stored(defs, settings) && Stored(defs, settings)[settings[i].name] == settings[i].value
    decreases |settings|
  {
    var s := settings[0];
    if i == 0 {
      StoredKeeps(defs[s.name := s.value], settings[1..], s.name);
    } else {
      StoredHas(defs[s.name := s.value], settings[1..], i - 1);
    }
  }

  /** Every symbol has its value, and no other symbol is set. */
  ghost predicate Restores(settings: seq<Setting>, read: map<string, Value>) {
    && (forall s :: s in settings ==> s.name in read && read[s.name] == s.value)
    && (forall name :: name in read ==> exists s :: s in settings && s.name == name)
  }

  /** Every symbol gets its value back, and no other symbol is set. */
  lemma {:induction false} EveryValueIsRestored(kinds: Kinds, modules: bool, settings: seq<Setting>)
    requires AllFine(kinds, modules, settings) && forall s :: s in settings ==> s.name in kinds
    requires DistinctNames(settings)
    ensures Restores(settings, ReadAll(kinds, map[], Print(kinds, modules, settings)))
  {
    ReadBack(kinds, modules, map[], settings);
    forall s | s in settings ensures s.name in Stored(map[], settings) && Stored(map[], settings)[s.name] == s.value {
      var i :| 0 <= i < |settings| && settings[i] == s;
      StoredHas(map[], settings, i);
    }
    forall name | name in Stored(map[], settings) ensures exists s :: s in settings && s.name == name {
      if forall s :: s in settings ==> s.name != name { StoredKeeps(map[], settings, name); }
    }
  }

  // ---------- writing and reading ----------

  lemma {:induction false} PrintAppend(kinds: Kinds, modules: bool, settings: seq<Setting>, s: Setting)
    requires forall t :: t in settings + [s] ==> t.name in kinds
    ensures forall t :: t in settings ==> t.name in kinds
    ensures Print(kinds, modules, settings + [s])
         == Print(kinds, modules, settings) + Printed(kinds[s.name], modules, s.name, s.value)
    decreases |settings|
  {
    assert forall t :: t in settings ==> t in settings + [s];
    assert s in settings + [s];
    if settings == [] {
      assert (settings + [s])[1..] == [];
    } else {
      var (first, rest) := (settings[0], settings[1..]);
      assert (settings + [s])[0] == first && (settings + [s])[1..] == rest + [s];
      PrintAppend(kinds, modules, rest, s);
      Associative(Printed(kinds[first.name], modules, first.name, first.value), Print(kinds, modules, rest),
                  Printed(kinds[s.name], modules, s.name, s.value));
    }
  }

  method WriteSettings(kinds: Kinds, modules: bool, settings: seq<Setting>) returns (file: string)
    requires forall s :: s in settings ==> s.name in kinds
    ensures file == Print(kinds, modules, settings)
  {
    file := "";
    var i := 0;
    while i < |settings|
      invariant i <= |settings| && (forall s :: s in settings[..i] ==> s.name in kinds)
      invariant file == Print(kinds, modules, settings[..i])
    {
      var s := settings[i];
      assert settings[..i + 1] == settings[..i] + [s];
      PrintAppend(kinds, modules, settings[..i], s);
      var written := WriteSymbol(kinds[s.name], modules, s.name, s.value);
      file := file + written;
      i := i + 1;
    }
    assert settings[..i] == settings;
  }

  /** The string branch of conf_set_sym_val, with the text in a buffer of its own. */
  method ReadQuoted(p: string) returns (r: Option<Value>)
    requires '\0' !in p && p != "" && p[0] == '"'
    ensures r == ValueOf(Str, p)
  {
    var text := p[1..];
    var buf := new char[|p|];
    forall i | 0 <= i < |text| { buf[i] := text[i]; }
    buf[|text|] := '\0';
    assert forall k :: 0 <= k < |text| ==> text[k] in p;
    StringIs(buf[..], 0, text);
    var ok := UnescapeInPlace(buf, 0);
    if !ok { return None; }
    var value := CopyString(buf);
    r := Some(TextValue(value));
  }

  /** strdup, from the start of a buffer. */
  method CopyString(buf: array<char>) returns (s: string)
    ensures s == StringAt(buf[..], 0)
  {
    ghost var b := buf[..];
    s := "";
    var n := 0;
    while n < buf.Length && buf[n] != '\0'
      invariant n <= buf.Length && s + StringAt(b, n) == StringAt(b, 0)
    {
      Associative(s, [buf[n]], StringAt(b, n + 1));
      s := s + [buf[n]];
      n := n + 1;
    }
  }

  /** conf_set_sym_val. */
  method SetSymVal(kind: SymbolType, p: string) returns (r: Option<Value>)
    requires '\0' !in p
    ensures r == ValueOf(kind, p)
  {
    match kind {
      case Unknown => r := None;
      case Str =>
        if CharAt(p, 0) != '"' { return None; }
        r := ReadQuoted(p);
      case Int =>
        var valid := StringValid(kind, p);
        r := if valid then Some(TextValue(p)) else None;
      case Hex =>
        var valid := StringValid(kind, p);
        r := if valid then Some(TextValue(p)) else None;
      case _ =>
        var c := CharAt(p, 0);
        if kind == Tristate && c == 'm' { return Some(TriValue(MOD)); }
        if c == 'y' { return Some(TriValue(YES)); }
        if c == 'n' { return Some(TriValue(NO)); }
        r := None;
    }
  }

  class Reader {
    const kinds: Kinds
    var defs: map<string, Value>

    constructor (kinds: Kinds)
      ensures this.kinds == kinds && defs == map[]
    {
      this.kinds := kinds;
      defs := map[];
    }

    /** A line that starts with a hash. */
    method ReadComment(line: string)
      modifies this
      ensures defs == Apply(old(defs), CommentEffect(kinds, line))
    {
      if !HasAt(line, 2, CONFIG) { return; }
      var p := StrChr(line, ' ', 9);
      if p == |line| || !HasAt(line, p + 1, UNSET) { return; }
      var name := line[9..p];
      if name !in kinds { return; }
      if IsTri(kinds[name]) { defs := defs[name := TriValue(NO)]; }
    }

    /** A line that starts with the prefix of assignments. */
    method ReadAssignment(line: string)
      requires '\0' !in line && HasAt(line, 0, CONFIG)
      modifies this
      ensures defs == Apply(old(defs), AssignmentEffect(kinds, line))
    {
      var p := StrChr(line, '=', 7);
      if p == |line| { return; }
      var name := line[7..p];
      if name !in kinds { return; }
      var text := line[p + 1..];
      var p2 := StrChr(text, '\n', 0);
      if p2 < |text| {
        text := text[..p2];
        if p2 > 0 && text[p2 - 1] == '\r' { text := text[..p2 - 1]; }
      }
      assert text == Cut(line[p + 1..]);
      assert forall c :: c in text ==> c in line;
      var v := SetSymVal(kinds[name], text);
      match v {
        case None =>
        case Some(value) => defs := defs[name := value];
      }
    }

    /** One round of the loop in conf_read_simple. */
    method ReadLine(line: string)
      requires '\0' !in line
      modifies this
      ensures defs == Apply(old(defs), EffectOf(kinds, line))
    {
      if CharAt(line, 0) == '#' { ReadComment(line); }
      else if HasAt(line, 0, CONFIG) { ReadAssignment(line); }
    }

    /** conf_read_simple: forgets the old values and reads the file, line by line. */
    method ReadSimple(file: string)
      requires '\0' !in file
      modifies this
      ensures defs == ReadAll(kinds, map[], file)
    {
      defs := map[];
      var rest := file;
      while rest != ""
        invariant '\0' !in rest && ReadAll(kinds, map[], file) == ReadAll(kinds, defs, rest)
        decreases |rest|
      {
        var n := LineLength(rest);
        assert forall c :: c in rest[..n] ==> c in rest;
        assert forall c :: c in rest[n..] ==> c in rest;
        ReadLine(rest[..n]);
        rest := rest[n..];
      }
    }
  }
}

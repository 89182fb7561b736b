/** Key chords: parsing a typed combination, printing it as a hint, and the binding table. */
module Keybind {
  import opened Basics

  type Ascii = c: char | c < 128 as char
  type Text = seq<Ascii>

  // ----- ASCII text --------------------------------------------------------------------------------

  predicate IsSpace(c: Ascii) {
    c == ' ' || 9 as char <= c <= 13 as char
  }

  function LowerChar(c: Ascii): (l: Ascii) {
    if 'A' <= c <= 'Z' then c - 'A' + 'a' else c
  }

  function UpperChar(c: Ascii): (u: Ascii) {
    if 'a' <= c <= 'z' then c - 'a' + 'A' else c
  }

  function Lower(s: Text): (l: Text)
    ensures |l| == |s| && forall i :: 0 <= i < |s| ==> l[i] == LowerChar(s[i])
  {
    seq(|s|, i requires 0 <= i < |s| => LowerChar(s[i]))
  }

  function TrimStart(s: Text): (t: Text) {
    if s != [] && IsSpace(s[0]) then TrimStart(s[1..]) else s
  }

  function TrimEnd(s: Text): (t: Text) {
    if s != [] && IsSpace(s[|s| - 1]) then TrimEnd(s[..|s| - 1]) else s
  }

  function Trim(s: Text): (t: Text) {
    TrimEnd(TrimStart(s))
  }

  /** The parts of `s` between plus signs; there is always at least one. */
  function Split(s: Text): (parts: seq<Text>)
    ensures |parts| > 0
  {
    if s == [] then [[]]
    else if s[0] == '+' then [[]] + Split(s[1..])
    else
      var rest := Split(s[1..]);
      [[s[0]] + rest[0]] + rest[1..]
  }

  function Join(parts: seq<Text>): (s: Text) {
    if parts == [] then []
    else if |parts| == 1 then parts[0]
    else parts[0] + ['+'] + Join(parts[1..])
  }

  // ----- Chords ------------------------------------------------------------------------------------

  datatype NamedKeyId =
    | ArrowUp | ArrowDown | ArrowLeft | ArrowRight | Home | End | PageUp | PageDown | Tab | Enter
    | Backspace | Escape | Delete | Insert | Space
    | F1 | F2 | F3 | F4 | F5 | F6 | F7 | F8 | F9 | F10 | F11 | F12

  type Digit = d: int | 0 <= d < 10

  datatype KeyName = Character(c: Ascii) | Named(name: NamedKeyId) | Physical(digit: Digit)

  datatype ModifierSet = ModifierSet(ctrl: bool, alt: bool, shift: bool, superKey: bool)

  const NO_MODIFIERS := ModifierSet(false, false, false, false)

  datatype KeyChord = KeyChord(mods: ModifierSet, key: KeyName)

  datatype ParseError =
    | EmptyChord | NoKey | OakModUnavailable | UnknownModifier(name: Text) | DuplicateModifier(name: Text)
    | UnknownKey(name: Text)

  type Parsed<+T> = Result<T, ParseError>

  function WordKey(s: Text): (r: Option<NamedKeyId>)
    ensures r.Some? ==> |s| >= 2 && s[0] != 'f'
  {
    if s == "arrowup" || s == "up" then Some(ArrowUp)
    else if s == "arrowdown" || s == "down" then Some(ArrowDown)
    else if s == "arrowleft" || s == "left" then Some(ArrowLeft)
    else if s == "arrowright" || s == "right" then Some(ArrowRight)
    else if s == "home" then Some(Home)
    else if s == "end" then Some(End)
    else if s == "pageup" then Some(PageUp)
    else if s == "pagedown" then Some(PageDown)
    else if s == "tab" then Some(Tab)
    else if s == "enter" || s == "return" then Some(Enter)
    else if s == "backspace" then Some(Backspace)
    else if s == "escape" || s == "esc" then Some(Escape)
    else if s == "delete" || s == "del" then Some(Delete)
    else if s == "insert" || s == "ins" then Some(Insert)
    else if s == "space" then Some(Space)
    else None
  }

  function FunctionKey(s: Text): (r: Option<NamedKeyId>)
    ensures r.Some? ==> |s| >= 2 && s[0] == 'f'
  {
    if s == "f1" then Some(F1)
    else if s == "f2" then Some(F2)
    else if s == "f3" then Some(F3)
    else if s == "f4" then Some(F4)
    else if s == "f5" then Some(F5)
    else if s == "f6" then Some(F6)
    else if s == "f7" then Some(F7)
    else if s == "f8" then Some(F8)
    else if s == "f9" then Some(F9)
    else if s == "f10" then Some(F10)
    else if s == "f11" then Some(F11)
    else if s == "f12" then Some(F12)
    else None
  }

  /** `NamedKeyId::parse`, on an already lower-cased name. */
  function NamedKey(s: Text): (r: Option<NamedKeyId>)
    ensures r.Some? ==> |s| >= 2
  {
    var word := WordKey(s);
    if word.Some? then word else FunctionKey(s)
  }

  function NamedLabel(n: NamedKeyId): (s: Text) {
    match n
    case ArrowUp => "Up"
    case ArrowDown => "Down"
    case ArrowLeft => "Left"
    case ArrowRight => "Right"
    case Home => "Home"
    case End => "End"
    case PageUp => "PageUp"
    case PageDown => "PageDown"
    case Tab => "Tab"
    case Enter => "Enter"
    case Backspace => "Backspace"
    case Escape => "Esc"
    case Delete => "Delete"
    case Insert => "Insert"
    case Space => "Space"
    case F1 => "F1"
    case F2 => "F2"
    case F3 => "F3"
    case F4 => "F4"
    case F5 => "F5"
    case F6 => "F6"
    case F7 => "F7"
    case F8 => "F8"
    case F9 => "F9"
    case F10 => "F10"
    case F11 => "F11"
    case F12 => "F12"
  }

  /** `apply_modifier`: sets one modifier, refusing unknown names and repetitions. */
  function ApplyModifier(mods: ModifierSet, name: Text): (r: Parsed<ModifierSet>) {
    if name == "ctrl" || name == "control" then
      if mods.ctrl then Err(DuplicateModifier(name)) else Ok(mods.(ctrl := true))
    else if name == "alt" || name == "option" || name == "opt" then
      if mods.alt then Err(DuplicateModifier(name)) else Ok(mods.(alt := true))
    else if name == "shift" then
      if mods.shift then Err(DuplicateModifier(name)) else Ok(mods.(shift := true))
    else if name == "super" || name == "cmd" || name == "command" || name == "win" then
      if mods.superKey then Err(DuplicateModifier(name)) else Ok(mods.(superKey := true))
    else Err(UnknownModifier(name))
  }

  /** The explicit modifiers and, when the pseudo-modifier occurs, the set it stands for. */
  function ApplyAll(parts: seq<Text>, oakMod: Option<ModifierSet>, explicit: ModifierSet, fromOak: ModifierSet)
    : (r: Parsed<(ModifierSet, ModifierSet)>)
    decreases parts
  {
    if parts == [] then Ok((explicit, fromOak))
    else
      var m := Lower(Trim(parts[0]));
      if m == "oak_mod" then
        if oakMod.None? then Err(OakModUnavailable)
        else ApplyAll(parts[1..], oakMod, explicit, oakMod.value)
      else
        match ApplyModifier(explicit, m)
        case Err(e) => Err(e)
        case Ok(mods) => ApplyAll(parts[1..], oakMod, mods, fromOak)
  }

  function ParseKey(s: Text): (r: Parsed<KeyName>) {
    var lower := Lower(s);
    match NamedKey(lower)
    case Some(named) => Ok(Named(named))
    case None => if |lower| == 1 then Ok(Character(lower[0])) else Err(UnknownKey(s))
  }

  function Or(a: ModifierSet, b: ModifierSet): (r: ModifierSet) {
    ModifierSet(a.ctrl || b.ctrl, a.alt || b.alt, a.shift || b.shift, a.superKey || b.superKey)
  }

  /** `KeyChord::parse_impl`, without the loop; the method below runs it as the code does. */
  function Parse(text: Text, oakMod: Option<ModifierSet>): (r: Parsed<KeyChord>) {
    var s := Trim(text);
    if s == [] then Err(EmptyChord)
    else
      var parts := Split(s);
      var keyStr := Trim(parts[|parts| - 1]);
      if keyStr == [] then Err(NoKey)
      else
        match ApplyAll(parts[..|parts| - 1], oakMod, NO_MODIFIERS, NO_MODIFIERS)
        case Err(e) => Err(e)
        case Ok((explicit, fromOak)) =>
          match ParseKey(keyStr)
          case Err(e) => Err(e)
          case Ok(key) => Ok(KeyChord(Or(explicit, fromOak), key))
  }

  method ParseChord(text: Text, oakMod: Option<ModifierSet>) returns (r: Parsed<KeyChord>)
    ensures r == Parse(text, oakMod)
  {
    hide ApplyModifier, NamedKey, Trim, Lower, Split;
    var s := Trim(text);
    if s == [] {
      return Err(EmptyChord);
    }
    var parts := Split(s);
    var modifierParts := parts[..|parts| - 1];
    var keyStr := Trim(parts[|parts| - 1]);
    if keyStr == [] {
      return Err(NoKey);
    }
    var explicit, fromOakMod := NO_MODIFIERS, NO_MODIFIERS;
    for i := 0 to |modifierParts|
      invariant ApplyAll(modifierParts[i..], oakMod, explicit, fromOakMod) ==
                ApplyAll(modifierParts, oakMod, NO_MODIFIERS, NO_MODIFIERS)
    {
      assert modifierParts[i..][1..] == modifierParts[i + 1..];
      var m := Lower(Trim(modifierParts[i]));
      if m == "oak_mod" {
        if oakMod.None? {
          return Err(OakModUnavailable);
        }
        fromOakMod := oakMod.value;
        continue;
      }
      match ApplyModifier(explicit, m)
      case Err(e) => return Err(e);
      case Ok(mods) => explicit := mods;
    }
    match ParseKey(keyStr)
    case Err(e) => return Err(e);
    case Ok(key) => return Ok(KeyChord(Or(explicit, fromOakMod), key));
  }

  // ----- Hints -------------------------------------------------------------------------------------

  datatype Platform = MacOs | OtherOs

  function SuperLabel(p: Platform): (s: Text) {
    if p.MacOs? then "Cmd" else "Super"
  }

  function Labels(p: Platform, m: ModifierSet): (parts: seq<Text>) {
    (if m.superKey then [SuperLabel(p)] else [])
    + (if m.ctrl then ["Ctrl"] else [])
    + (if m.alt then ["Alt"] else [])
    + (if m.shift then ["Shift"] else [])
  }

  /** The text printed for a key. */
  function KeyLabel(k: KeyName): (s: Text)
    requires !k.Physical?
  {
    if k.Named? then NamedLabel(k.name) else [UpperChar(k.c)]
  }

  /** `KeyChord::display_hint`; a physical key has no label. */
  function DisplayHint(p: Platform, chord: KeyChord): (r: Option<Text>) {
    if chord.key.Physical? then None
    else
      var key := KeyLabel(chord.key);
      var mods := Join(Labels(p, chord.mods));
      Some((if mods == [] then mods else mods + ['+']) + key)
  }

  /** The chords a user can type: a named key, or a character that survives splitting and lower-casing. */
  predicate Typable(chord: KeyChord) {
    match chord.key
    case Named(_) => true
    case Character(c) => c != '+' && !IsSpace(c) && !('A' <= c <= 'Z')
    case Physical(_) => false
  }

  // ----- Facts about text --------------------------------------------------------------------------

  lemma TrimNothing(s: Text)
    requires s == [] || (!IsSpace(s[0]) && !IsSpace(s[|s| - 1]))
    ensures Trim(s) == s
  {
  }

  lemma {:induction false} TrimStartEnds(s: Text)
    ensures TrimStart(s) != [] ==> !IsSpace(TrimStart(s)[0])
    ensures forall c <- TrimStart(s) :: c in s
  {
    if s == [] || !IsSpace(s[0]) {
    } else {
      TrimStartEnds(s[1..]);
    }
  }

  lemma {:induction false} TrimEndEnds(s: Text)
    ensures TrimEnd(s) <= s
    ensures TrimEnd(s) != [] ==> !IsSpace(TrimEnd(s)[|TrimEnd(s)| - 1])
  {
    if s == [] || !IsSpace(s[|s| - 1]) {
    } else {
      TrimEndEnds(s[..|s| - 1]);
    }
  }

  /** A trimmed text neither starts nor ends with white space and has no new characters. */
  lemma TrimEnds(s: Text)
    ensures Trim(s) != [] ==> !IsSpace(Trim(s)[0]) && !IsSpace(Trim(s)[|Trim(s)| - 1])
    ensures forall c <- Trim(s) :: c in s
  {
    TrimStartEnds(s);
    TrimEndEnds(TrimStart(s));
  }

  lemma {:induction false} SplitHasNoPlus(s: Text)
    ensures forall part <- Split(s) :: '+' !in part
  {
    if s == [] {
    } else {
      SplitHasNoPlus(s[1..]);
    }
  }

  lemma {:induction false} SplitWhole(s: Text)
    requires '+' !in s
    ensures Split(s) == [s]
  {
    if s == [] {
    } else {
      SplitWhole(s[1..]);
      assert s == [s[0]] + s[1..];
    }
  }

  lemma {:induction false} SplitAtPlus(a: Text, b: Text)
    requires '+' !in a
    ensures Split(a + ['+'] + b) == [a] + Split(b)
  {
    var s := a + ['+'] + b;
    if a == [] {
      assert s[1..] == b;
    } else {
      SplitAtPlus(a[1..], b);
      assert s[1..] == a[1..] + ['+'] + b;
      assert a == [a[0]] + a[1..];
    }
  }

  /** Splitting what was joined gives the parts back, with the text after the last plus sign. */
  lemma {:induction false} SplitJoined(parts: seq<Text>, last: Text)
    requires forall part <- parts :: '+' !in part
    requires '+' !in last
    requires parts != []
    ensures Split(Join(parts) + ['+'] + last) == parts + [last]
  {
    hide Split;
    if |parts| == 1 {
      SplitAtPlus(parts[0], last);
      SplitWhole(last);
    } else {
      assert Join(parts) == parts[0] + ['+'] + Join(parts[1..]);
      hide Join;
      SplitJoined(parts[1..], last);
      var tail := Join(parts[1..]) + ['+'] + last;
      assert Join(parts) + ['+'] + last == parts[0] + ['+'] + tail;
      SplitAtPlus(parts[0], tail);
      assert parts == [parts[0]] + parts[1..];
    }
  }

  // ----- What a list of modifiers means ------------------------------------------------------------

  datatype Modifier = Ctrl | Alt | Shift | Super

  /** The modifier a name stands for, aliases included. */
  function ModifierNamed(name: Text): (r: Option<Modifier>) {
    if name in ["ctrl", "control"] then Some(Ctrl)
    else if name in ["alt", "option", "opt"] then Some(Alt)
    else if name == "shift" then Some(Shift)
    else if name in ["super", "cmd", "command", "win"] then Some(Super)
    else None
  }

  predicate Has(m: ModifierSet, k: Modifier) {
    match k
    case Ctrl => m.ctrl
    case Alt => m.alt
    case Shift => m.shift
    case Super => m.superKey
  }

  function PartModifier(part: Text): (r: Option<Modifier>) {
    ModifierNamed(Lower(Trim(part)))
  }

  predicate IsOakMod(part: Text) {
    Lower(Trim(part)) == "oak_mod"
  }

  lemma OakModIsNoModifier()
    ensures ModifierNamed("oak_mod").None?
  {
  }

  lemma ApplyModifierIff(m: ModifierSet, name: Text)
    ensures var k := ModifierNamed(name); var r := ApplyModifier(m, name);
      && (r.Ok? <==> k.Some? && !Has(m, k.value))
      && (r.Ok? ==> forall j :: Has(r.value, j) <==> Has(m, j) || j == k.value)
      && (r.Err? ==> r.error == if k.None? then UnknownModifier(name) else DuplicateModifier(name))
  {
  }

  ghost predicate AllUsable(parts: seq<Text>, oakMod: Option<ModifierSet>) {
    forall part <- parts :: PartModifier(part).Some? || (IsOakMod(part) && oakMod.Some?)
  }

  ghost predicate NoneTwice(parts: seq<Text>) {
    forall i, j :: 0 <= i < j < |parts| && PartModifier(parts[i]).Some? ==>
      PartModifier(parts[i]) != PartModifier(parts[j])
  }

  ghost predicate NoneAlready(parts: seq<Text>, m: ModifierSet) {
    forall part <- parts :: PartModifier(part).Some? ==> !Has(m, PartModifier(part).value)
  }

  /** The three conditions, first part apart from the rest. */
  lemma FirstApart(parts: seq<Text>, oakMod: Option<ModifierSet>, m: ModifierSet)
    requires parts != []
    ensures AllUsable(parts, oakMod) <==>
      (PartModifier(parts[0]).Some? || (IsOakMod(parts[0]) && oakMod.Some?)) && AllUsable(parts[1..], oakMod)
    ensures NoneAlready(parts, m) <==>
      (PartModifier(parts[0]).Some? ==> !Has(m, PartModifier(parts[0]).value)) && NoneAlready(parts[1..], m)
  {
    hide PartModifier, IsOakMod, Has;
    assert forall part :: part in parts <==> part == parts[0] || part in parts[1..];
  }

  /** Setting one more modifier asks of the rest, in addition, not to name it. */
  lemma OneMoreSet(rest: seq<Text>, m: ModifierSet, m': ModifierSet, k: Modifier)
    requires forall j :: Has(m', j) <==> Has(m, j) || j == k
    ensures NoneAlready(rest, m') <==> NoneAlready(rest, m) && forall part <- rest :: PartModifier(part) != Some(k)
  {
    hide PartModifier, Has;
    if NoneAlready(rest, m') {
      forall part | part in rest ensures PartModifier(part) != Some(k) {
        assert Has(m', k);
      }
    }
  }

  /**
   * Modifiers are accepted exactly when each is known, or the pseudo-modifier where it is available, and
   * none is repeated, under whatever alias; only the pseudo-modifier may repeat.
   */
  lemma {:induction false} ModifiersIff(
    parts: seq<Text>, oakMod: Option<ModifierSet>, explicit: ModifierSet, fromOak: ModifierSet)
    ensures ApplyAll(parts, oakMod, explicit, fromOak).Ok? <==>
      AllUsable(parts, oakMod) && NoneTwice(parts) && NoneAlready(parts, explicit)
    decreases parts
  {
    if parts == [] {
    } else {
      var head, rest := parts[0], parts[1..];
      var name := Lower(Trim(head));
      OakModIsNoModifier();
      ApplyModifierIff(explicit, name);
      FirstApart(parts, oakMod, explicit);
      Shifted(parts);
      hide ApplyModifier, Lower, Trim, ModifierNamed, AllUsable, NoneTwice, NoneAlready, Has;
      if name == "oak_mod" {
        if oakMod.Some? {
          ModifiersIff(rest, oakMod, explicit, oakMod.value);
        }
      } else if ApplyModifier(explicit, name).Ok? {
        var next := ApplyModifier(explicit, name).value;
        ModifiersIff(rest, oakMod, next, fromOak);
        OneMoreSet(rest, explicit, next, ModifierNamed(name).value);
      }
    }
  }

  /** The modifiers set are exactly those named, in whatever order, and the pseudo-modifier's set when it occurs. */
  lemma {:induction false} ModifiersSet(
    parts: seq<Text>, oakMod: Option<ModifierSet>, explicit: ModifierSet, fromOak: ModifierSet, k: Modifier)
    requires ApplyAll(parts, oakMod, explicit, fromOak).Ok?
    ensures var (e, f) := ApplyAll(parts, oakMod, explicit, fromOak).value;
      && (Has(e, k) <==> Has(explicit, k) || exists part <- parts :: PartModifier(part) == Some(k))
      && ((exists part <- parts :: IsOakMod(part)) ==> Some(f) == oakMod)
      && (!(exists part <- parts :: IsOakMod(part)) ==> f == fromOak)
    decreases parts
  {
    if parts == [] {
    } else {
      var head, rest := parts[0], parts[1..];
      var name := Lower(Trim(head));
      OakModIsNoModifier();
      ApplyModifierIff(explicit, name);
      assert IsOakMod(head) <==> name == "oak_mod";
      assert PartModifier(head) == ModifierNamed(name);
      assert forall part :: part in parts <==> part == head || part in rest;
      hide ApplyModifier, Lower, Trim, ModifierNamed, Has, PartModifier, IsOakMod;
      if name == "oak_mod" {
        ModifiersSet(rest, oakMod, explicit, oakMod.value, k);
      } else {
        ModifiersSet(rest, oakMod, ApplyModifier(explicit, name).value, fromOak, k);
      }
    }
  }

  lemma Shifted(parts: seq<Text>)
    requires parts != []
    ensures NoneTwice(parts) <==>
      && NoneTwice(parts[1..])
      && (PartModifier(parts[0]).Some? ==>
            forall part <- parts[1..] :: PartModifier(part) != PartModifier(parts[0]))
  {
    hide PartModifier;
    var rest := parts[1..];
    forall i | 0 <= i < |rest| ensures rest[i] == parts[i + 1] {}
    if NoneTwice(parts) {
      forall i, j | 0 <= i < j < |rest| && PartModifier(rest[i]).Some?
        ensures PartModifier(rest[i]) != PartModifier(rest[j])
      {
        assert PartModifier(parts[i + 1]) != PartModifier(parts[j + 1]);
      }
    }
    var first := PartModifier(parts[0]);
    if NoneTwice(rest) && (first.Some? ==> forall part <- rest :: PartModifier(part) != first) {
      forall i, j | 0 <= i < j < |parts| && PartModifier(parts[i]).Some?
        ensures PartModifier(parts[i]) != PartModifier(parts[j])
      {
        assert parts[j] == rest[j - 1] && rest[j - 1] in rest;
        if i > 0 {
          assert parts[i] == rest[i - 1];
        }
      }
    }
  }

  // ----- Typing a hint -----------------------------------------------------------------------------

  lemma {:induction false} ApplyAllConcat(
    a: seq<Text>, b: seq<Text>, oakMod: Option<ModifierSet>, explicit: ModifierSet, fromOak: ModifierSet)
    ensures ApplyAll(a + b, oakMod, explicit, fromOak) ==
      match ApplyAll(a, oakMod, explicit, fromOak) {
        case Err(e) => Err(e)
        case Ok((e, f)) => ApplyAll(b, oakMod, e, f)
      }
  {
    hide ApplyModifier, Lower, Trim;
    if a == [] {
      assert a + b == b;
    } else {
      assert (a + b)[1..] == a[1..] + b;
      var m := Lower(Trim(a[0]));
      if m == "oak_mod" {
        if oakMod.Some? {
          ApplyAllConcat(a[1..], b, oakMod, explicit, oakMod.value);
        }
      } else if ApplyModifier(explicit, m).Ok? {
        ApplyAllConcat(a[1..], b, oakMod, ApplyModifier(explicit, m).value, fromOak);
      }
    }
  }

  lemma LowerLabels()
    ensures Lower("Cmd") == "cmd" && Lower("Super") == "super"
    ensures Lower("Ctrl") == "ctrl" && Lower("Alt") == "alt" && Lower("Shift") == "shift"
  {
  }

  /** One label, where it applies, sets exactly its modifier. */
  lemma ApplyLabel(word: Text, on: bool, oakMod: Option<ModifierSet>, explicit: ModifierSet, after: ModifierSet)
    requires Trim(word) == word && Lower(word) != "oak_mod"
    requires if on then ApplyModifier(explicit, Lower(word)) == Ok(after) else after == explicit
    ensures ApplyAll(if on then [word] else [], oakMod, explicit, NO_MODIFIERS) == Ok((after, NO_MODIFIERS))
  {
  }

  lemma ReadSuper(p: Platform, on: bool, oakMod: Option<ModifierSet>, m: ModifierSet)
    requires !m.superKey
    ensures ApplyAll(if on then [SuperLabel(p)] else [], oakMod, m, NO_MODIFIERS)
         == Ok((m.(superKey := on), NO_MODIFIERS))
  {
    LowerLabels();
    TrimNothing(SuperLabel(p));
    ApplyLabel(SuperLabel(p), on, oakMod, m, m.(superKey := on));
  }

  lemma ReadCtrl(on: bool, oakMod: Option<ModifierSet>, m: ModifierSet)
    requires !m.ctrl
    ensures ApplyAll(if on then ["Ctrl"] else [], oakMod, m, NO_MODIFIERS) == Ok((m.(ctrl := on), NO_MODIFIERS))
  {
    LowerLabels();
    TrimNothing("Ctrl");
    ApplyLabel("Ctrl", on, oakMod, m, m.(ctrl := on));
  }

  lemma ReadAlt(on: bool, oakMod: Option<ModifierSet>, m: ModifierSet)
    requires !m.alt
    ensures ApplyAll(if on then ["Alt"] else [], oakMod, m, NO_MODIFIERS) == Ok((m.(alt := on), NO_MODIFIERS))
  {
    LowerLabels();
    TrimNothing("Alt");
    ApplyLabel("Alt", on, oakMod, m, m.(alt := on));
  }

  lemma ReadShift(on: bool, oakMod: Option<ModifierSet>, m: ModifierSet)
    requires !m.shift
    ensures ApplyAll(if on then ["Shift"] else [], oakMod, m, NO_MODIFIERS) == Ok((m.(shift := on), NO_MODIFIERS))
  {
    LowerLabels();
    TrimNothing("Shift");
    ApplyLabel("Shift", on, oakMod, m, m.(shift := on));
  }

  /** The labels printed for a modifier set read back as that set, on either platform. */
  lemma LabelsReadBack(p: Platform, m: ModifierSet, oakMod: Option<ModifierSet>)
    ensures ApplyAll(Labels(p, m), oakMod, NO_MODIFIERS, NO_MODIFIERS) == Ok((m, NO_MODIFIERS))
  {
    hide ApplyAll, SuperLabel;
    var m1 := NO_MODIFIERS.(superKey := m.superKey);
    var m2 := m1.(ctrl := m.ctrl);
    var m3 := m2.(alt := m.alt);
    ReadSuper(p, m.superKey, oakMod, NO_MODIFIERS);
    ReadCtrl(m.ctrl, oakMod, m1);
    ReadAlt(m.alt, oakMod, m2);
    ReadShift(m.shift, oakMod, m3);
    var a: seq<Text> := if m.superKey then [SuperLabel(p)] else [];
    var b: seq<Text> := if m.ctrl then ["Ctrl"] else [];
    var c: seq<Text> := if m.alt then ["Alt"] else [];
    var d: seq<Text> := if m.shift then ["Shift"] else [];
    ApplyAllConcat(a, b, oakMod, NO_MODIFIERS, NO_MODIFIERS);
    ApplyAllConcat(a + b, c, oakMod, NO_MODIFIERS, NO_MODIFIERS);
    ApplyAllConcat(a + b + c, d, oakMod, NO_MODIFIERS, NO_MODIFIERS);
    assert m3.(shift := m.shift) == m;
  }

  lemma LowFunctionKeyReadsBack(n: NamedKeyId)
    requires n.F1? || n.F2? || n.F3? || n.F4? || n.F5? || n.F6?
    ensures NamedKey(Lower(NamedLabel(n))) == Some(n)
  {
    hide WordKey;
    match n
    case F1 => assert Lower("F1") == "f1";
    case F2 => assert Lower("F2") == "f2";
    case F3 => assert Lower("F3") == "f3";
    case F4 => assert Lower("F4") == "f4";
    case F5 => assert Lower("F5") == "f5";
    case F6 => assert Lower("F6") == "f6";
    case _ =>
  }

  lemma HighFunctionKeyReadsBack(n: NamedKeyId)
    requires n.F7? || n.F8? || n.F9? || n.F10? || n.F11? || n.F12?
    ensures NamedKey(Lower(NamedLabel(n))) == Some(n)
  {
    hide WordKey;
    match n
    case F7 => assert Lower("F7") == "f7";
    case F8 => assert Lower("F8") == "f8";
    case F9 => assert Lower("F9") == "f9";
    case F10 => assert Lower("F10") == "f10";
    case F11 => assert Lower("F11") == "f11";
    case F12 => assert Lower("F12") == "f12";
    case _ =>
  }

  lemma ArrowKeyReadsBack(n: NamedKeyId)
    requires n.ArrowUp? || n.ArrowDown? || n.ArrowLeft? || n.ArrowRight?
    ensures NamedKey(Lower(NamedLabel(n))) == Some(n)
  {
    hide FunctionKey;
    match n
    case ArrowUp => assert Lower("Up") == "up";
    case ArrowDown => assert Lower("Down") == "down";
    case ArrowLeft => assert Lower("Left") == "left";
    case ArrowRight => assert Lower("Right") == "right";
    case _ =>
  }

  lemma PagingKeyReadsBack(n: NamedKeyId)
    requires n.Home? || n.End? || n.PageUp? || n.PageDown?
    ensures NamedKey(Lower(NamedLabel(n))) == Some(n)
  {
    hide FunctionKey;
    match n
    case Home => assert Lower("Home") == "home";
    case End => assert Lower("End") == "end";
    case PageUp => assert Lower("PageUp") == "pageup";
    case PageDown => assert Lower("PageDown") == "pagedown";
    case _ =>
  }

  lemma BlankKeyReadsBack(n: NamedKeyId)
    requires n.Tab? || n.Enter? || n.Space?
    ensures NamedKey(Lower(NamedLabel(n))) == Some(n)
  {
    hide FunctionKey;
    match n
    case Tab => assert Lower("Tab") == "tab";
    case Enter => assert Lower("Enter") == "enter";
    case Space => assert Lower("Space") == "space";
    case _ =>
  }

  lemma BackspaceReadsBack()
    ensures NamedKey(Lower(NamedLabel(Backspace))) == Some(Backspace)
  {
    hide FunctionKey;
    assert Lower("Backspace") == "backspace";
  }

  lemma DeleteReadsBack()
    ensures NamedKey(Lower(NamedLabel(Delete))) == Some(Delete)
  {
    hide FunctionKey;
    assert Lower("Delete") == "delete";
  }

  lemma ModeKeyReadsBack(n: NamedKeyId)
    requires n.Escape? || n.Insert?
    ensures NamedKey(Lower(NamedLabel(n))) == Some(n)
  {
    hide FunctionKey;
    match n
    case Escape => assert Lower("Esc") == "esc";
    case Insert => assert Lower("Insert") == "insert";
    case _ =>
  }

  /** Every named key's label reads back as that key. */
  lemma NamedReadsBack(n: NamedKeyId)
    ensures NamedKey(Lower(NamedLabel(n))) == Some(n)
  {
    hide NamedKey, Lower, NamedLabel;
    match n
    case F1 | F2 | F3 | F4 | F5 | F6 => LowFunctionKeyReadsBack(n);
    case F7 | F8 | F9 | F10 | F11 | F12 => HighFunctionKeyReadsBack(n);
    case ArrowUp | ArrowDown | ArrowLeft | ArrowRight => ArrowKeyReadsBack(n);
    case Home | End | PageUp | PageDown => PagingKeyReadsBack(n);
    case Tab | Enter | Space => BlankKeyReadsBack(n);
    case Backspace => BackspaceReadsBack();
    case Delete => DeleteReadsBack();
    case Escape | Insert => ModeKeyReadsBack(n);
  }

  lemma NamedLabelShape(n: NamedKeyId)
    ensures var s := NamedLabel(n); s != [] && !IsSpace(s[0]) && !IsSpace(s[|s| - 1]) && '+' !in s
  {
  }

  lemma KeyReadsBack(chord: KeyChord)
    requires Typable(chord)
    ensures var s := KeyLabel(chord.key); s != [] && !IsSpace(s[0]) && !IsSpace(s[|s| - 1]) && '+' !in s
    ensures ParseKey(KeyLabel(chord.key)) == Ok(chord.key)
  {
    if chord.key.Named? {
      NamedLabelShape(chord.key.name);
      NamedReadsBack(chord.key.name);
    } else {
      assert LowerChar(UpperChar(chord.key.c)) == chord.key.c;
    }
  }

  lemma LabelsShape(p: Platform, m: ModifierSet)
    ensures forall part <- Labels(p, m) :: '+' !in part && part != [] && !IsSpace(part[0])
  {
  }

  lemma JoinStarts(parts: seq<Text>)
    requires parts != [] && parts[0] != []
    ensures Join(parts) != [] && Join(parts)[0] == parts[0][0]
  {
  }

  lemma TypableHintParses(p: Platform, chord: KeyChord, oakMod: Option<ModifierSet>)
    requires Typable(chord)
    ensures DisplayHint(p, chord).Some?
    ensures Parse(DisplayHint(p, chord).value, oakMod) == Ok(chord)
  {
    hide ApplyAll, ParseKey, Labels, Join, Split, Trim, NamedLabel;
    var hint := DisplayHint(p, chord).value;
    var labels, key := Labels(p, chord.mods), KeyLabel(chord.key);
    KeyReadsBack(chord);
    LabelsShape(p, chord.mods);
    LabelsReadBack(p, chord.mods, oakMod);
    TrimNothing(key);
    if labels == [] {
      JoinEmpty();
      assert hint == key;
      SplitWhole(key);
      assert [key][..0] == labels;
    } else {
      assert labels[0] in labels;
      JoinStarts(labels);
      TrimNothing(hint);
      SplitJoined(labels, key);
      assert (labels + [key])[..|labels|] == labels;
    }
    assert Or(chord.mods, NO_MODIFIERS) == chord.mods;
  }

  lemma JoinEmpty()
    ensures Join([]) == []
  {
  }

  /** Whatever text parses, the chord it gives is one a user can type. */
  lemma ParseGivesTypable(text: Text, oakMod: Option<ModifierSet>)
    requires Parse(text, oakMod).Ok?
    ensures Typable(Parse(text, oakMod).value)
  {
    hide ApplyAll, NamedKey, Trim, Split;
    var s := Trim(text);
    var parts := Split(s);
    var part := parts[|parts| - 1];
    SplitHasNoPlus(s);
    TrimEnds(part);
    assert part in parts && '+' !in part;
    var keyStr := Trim(part);
    if Parse(text, oakMod).value.key.Character? {
      assert keyStr[0] in keyStr;
    }
  }

  /**
   * A chord's printed hint, typed back in any context and on either platform, gives that chord if and
   * only if the chord is one a user can type; the chords of physical keys are the ones without a hint.
   */
  lemma HintRoundTrip(p: Platform, chord: KeyChord, oakMod: Option<ModifierSet>)
    ensures DisplayHint(p, chord).None? <==> chord.key.Physical?
    ensures !chord.key.Physical? ==> (Parse(DisplayHint(p, chord).value, oakMod) == Ok(chord) <==> Typable(chord))
  {
    hide Parse, DisplayHint;
    if Typable(chord) {
      TypableHintParses(p, chord, oakMod);
    }
    HintWhen(p, chord);
    if !chord.key.Physical? && Parse(DisplayHint(p, chord).value, oakMod) == Ok(chord) {
      ParseGivesTypable(DisplayHint(p, chord).value, oakMod);
    }
  }

  lemma HintWhen(p: Platform, chord: KeyChord)
    ensures DisplayHint(p, chord).None? <==> chord.key.Physical?
  {
  }
}

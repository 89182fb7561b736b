/** Whole chords: which texts parse and to what, which complaint comes first, and how a hint is spelled. */
module Chords {
  import opened Basics
  import opened Keybind

  /** White space: the blank and the five control characters from tab to carriage return. */
  lemma SpaceIs(c: Ascii)
    ensures IsSpace(c) <==> c as int in {9, 10, 11, 12, 13, 32}
  {
  }

  ghost predicate Blank(s: Text) {
    forall c <- s :: IsSpace(c)
  }

  lemma {:induction false} TrimStartKeeps(s: Text)
    ensures |TrimStart(s)| <= |s| && TrimStart(s) == s[|s| - |TrimStart(s)|..]
    ensures forall i :: 0 <= i < |s| - |TrimStart(s)| ==> IsSpace(s[i])
  {
    if s == [] || !IsSpace(s[0]) {
    } else {
      TrimStartKeeps(s[1..]);
      assert forall i :: 1 <= i < |s| ==> s[i] == s[1..][i - 1];
    }
  }

  lemma {:induction false} TrimEndKeeps(s: Text)
    ensures |TrimEnd(s)| <= |s| && TrimEnd(s) == s[..|TrimEnd(s)|]
    ensures forall i :: |TrimEnd(s)| <= i < |s| ==> IsSpace(s[i])
  {
    if s == [] || !IsSpace(s[|s| - 1]) {
    } else {
      TrimEndKeeps(s[..|s| - 1]);
    }
  }

  /** Trimming takes white space off both ends and nothing else; it leaves nothing exactly of blank text. */
  lemma TrimIs(s: Text) returns (a: Text, b: Text)
    ensures Blank(a) && Blank(b) && s == a + Trim(s) + b
    ensures Trim(s) == [] <==> Blank(s)
  {
    hide IsSpace, TrimStart, TrimEnd;
    var t := TrimStart(s);
    TrimStartKeeps(s);
    TrimEndKeeps(t);
    a, b := s[..|s| - |t|], t[|TrimEnd(t)|..];
    BlankOrNot(s, a, b);
  }

  lemma BlankOrNot(s: Text, a: Text, b: Text)
    requires Blank(a) && Blank(b) && s == a + Trim(s) + b
    ensures Trim(s) == [] <==> Blank(s)
  {
    TrimEnds(s);
    hide IsSpace, Trim;
    var t := Trim(s);
    if t != [] {
      assert t[0] in s;
    }
  }

  /** The parts, none with a plus sign in it, are what stands between the plus signs. */
  lemma {:induction false} SplitIs(s: Text)
    ensures Join(Split(s)) == s
    ensures forall part <- Split(s) :: '+' !in part
  {
    SplitHasNoPlus(s);
    if s == [] {
    } else {
      SplitIs(s[1..]);
      var rest := Split(s[1..]);
      assert s == [s[0]] + s[1..];
      if s[0] == '+' {
        assert ([[]] + rest)[1..] == rest;
      } else {
        assert ([[s[0]] + rest[0]] + rest[1..])[1..] == rest[1..];
      }
    }
  }

  // ----- parsing -----

  /** The modifier parts and the key part of a text. */
  function Mods(text: Text): (parts: seq<Text>) {
    var parts := Split(Trim(text));
    parts[..|parts| - 1]
  }

  function KeyPart(text: Text): (s: Text) {
    var parts := Split(Trim(text));
    parts[|parts| - 1]
  }

  /**
   * A text is a chord exactly when it is not blank, ends in a key, and its modifiers are known, available and
   * not repeated; the chord then has that key, and the modifiers named together with those the
   * pseudo-modifier stands for where it occurs.
   */
  lemma ParsesIff(text: Text, oakMod: Option<ModifierSet>, k: Modifier)
    ensures var r := Parse(text, oakMod);
      && (r.Ok? <==>
            && !Blank(text) && !Blank(KeyPart(text)) && AllUsable(Mods(text), oakMod) && NoneTwice(Mods(text))
            && ParseKey(Trim(KeyPart(text))).Ok?)
      && (r.Ok? ==>
            && r.value.key == ParseKey(Trim(KeyPart(text))).value
            && (Has(r.value.mods, k) <==>
                  || (exists part <- Mods(text) :: PartModifier(part) == Some(k))
                  || ((exists part <- Mods(text) :: IsOakMod(part)) && oakMod.Some? && Has(oakMod.value, k))))
  {
    var _, _ := TrimIs(text);
    var _, _ := TrimIs(KeyPart(text));
    ModifiersIff(Mods(text), oakMod, NO_MODIFIERS, NO_MODIFIERS);
    NothingYet(Mods(text));
    hide ApplyAll, ParseKey, AllUsable, NoneTwice, PartModifier, IsOakMod, Blank, Trim, Split;
    if ApplyAll(Mods(text), oakMod, NO_MODIFIERS, NO_MODIFIERS).Ok? {
      ModifiersSet(Mods(text), oakMod, NO_MODIFIERS, NO_MODIFIERS, k);
    }
  }

  lemma NothingYet(parts: seq<Text>)
    ensures NoneAlready(parts, NO_MODIFIERS)
  {
  }

  /** Which complaint comes first: blank text, then a missing key, then the modifiers from the left, then the
      key. */
  lemma ComplaintOrder(text: Text, oakMod: Option<ModifierSet>)
    ensures var r := Parse(text, oakMod);
      && (r == Err(EmptyChord) <==> Blank(text))
      && (!Blank(text) && Blank(KeyPart(text)) ==> r == Err(NoKey))
      && (!Blank(text) && !Blank(KeyPart(text)) && AllUsable(Mods(text), oakMod) && NoneTwice(Mods(text)) && r.Err? ==>
            r == Err(UnknownKey(Trim(KeyPart(text)))))
    ensures !Blank(text) && !Blank(KeyPart(text)) && !(AllUsable(Mods(text), oakMod) && NoneTwice(Mods(text))) ==>
      exists i :: 0 <= i < |Mods(text)| && FirstBad(Mods(text), oakMod, i, Parse(text, oakMod))
  {
    var _, _ := TrimIs(text);
    var _, _ := TrimIs(KeyPart(text));
    ModifiersIff(Mods(text), oakMod, NO_MODIFIERS, NO_MODIFIERS);
    NothingYet(Mods(text));
    hide AllUsable, NoneTwice, PartModifier, IsOakMod, Blank, Trim, Split, NamedKey, Lower;
    var r := ApplyAll(Mods(text), oakMod, NO_MODIFIERS, NO_MODIFIERS);
    if r.Err? {
      var i := FirstBadModifier(Mods(text), oakMod, NO_MODIFIERS, NO_MODIFIERS);
      if !Blank(text) && !Blank(KeyPart(text)) {
        assert Parse(text, oakMod) == Err(r.error);
        assert FirstBad(Mods(text), oakMod, i, Parse(text, oakMod));
      }
    }
  }

  /** The parts before `i` are in order, the part at `i` is not, and `r` says what is wrong with it. */
  ghost predicate FirstBad<T>(parts: seq<Text>, oakMod: Option<ModifierSet>, i: nat, r: Parsed<T>)
    requires i < |parts|
  {
    && AllUsable(parts[..i], oakMod) && NoneTwice(parts[..i])
    && r == Err(if IsOakMod(parts[i]) then OakModUnavailable
                else if PartModifier(parts[i]).None? then UnknownModifier(Lower(Trim(parts[i])))
                else DuplicateModifier(Lower(Trim(parts[i]))))
  }

  lemma {:induction false} FirstBadModifier(
    parts: seq<Text>, oakMod: Option<ModifierSet>, explicit: ModifierSet, fromOak: ModifierSet) returns (i: nat)
    requires ApplyAll(parts, oakMod, explicit, fromOak).Err?
    ensures i < |parts|
    ensures ApplyAll(parts[..i], oakMod, explicit, fromOak).Ok?
    ensures ApplyAll(parts, oakMod, explicit, fromOak) ==
      Err(if IsOakMod(parts[i]) then OakModUnavailable
          else if PartModifier(parts[i]).None? then UnknownModifier(Lower(Trim(parts[i])))
          else DuplicateModifier(Lower(Trim(parts[i]))))
    ensures AllUsable(parts[..i], oakMod) && NoneTwice(parts[..i])
    decreases parts
  {
    var name := Lower(Trim(parts[0]));
    OakModIsNoModifier();
    ApplyModifierIff(explicit, name);
    assert IsOakMod(parts[0]) <==> name == "oak_mod";
    assert PartModifier(parts[0]) == ModifierNamed(name);
    hide ApplyModifier, Lower, Trim, ModifierNamed, PartModifier, IsOakMod, Has, AllUsable, NoneTwice, NoneAlready;
    i := 0;
    if name == "oak_mod" {
      if oakMod.Some? {
        var j := FirstBadModifier(parts[1..], oakMod, explicit, oakMod.value);
        i := j + 1;
        assert parts[..i][1..] == parts[1..][..i - 1];
      }
    } else if ApplyModifier(explicit, name).Ok? {
      var j := FirstBadModifier(parts[1..], oakMod, ApplyModifier(explicit, name).value, fromOak);
      i := j + 1;
      assert parts[..i][1..] == parts[1..][..i - 1];
    }
    ModifiersIff(parts[..i], oakMod, explicit, fromOak);
  }

  /** One character is that key, in lower case; a longer text is a key only by name, in whatever case. */
  lemma KeyIs(s: Text)
    requires s != []
    ensures |s| == 1 ==> ParseKey(s) == Ok(Character(if 'A' <= s[0] <= 'Z' then s[0] - 'A' + 'a' else s[0]))
    ensures |s| > 1 && NamedKey(Lower(s)).Some? ==> ParseKey(s) == Ok(Named(NamedKey(Lower(s)).value))
    ensures |s| > 1 && NamedKey(Lower(s)).None? ==> ParseKey(s) == Err(UnknownKey(s))
  {
    hide WordKey, FunctionKey;
  }

  /** No other names. */
  lemma NamesAre(s: Text)
    requires NamedKey(s).Some?
    ensures s in ["arrowup", "up", "arrowdown", "down", "arrowleft", "left", "arrowright", "right", "home", "end",
                  "pageup", "pagedown", "tab", "enter", "return", "backspace", "escape", "esc", "delete", "del",
                  "insert", "ins", "space"]
         || s in ["f1", "f2", "f3", "f4", "f5", "f6", "f7", "f8", "f9", "f10", "f11", "f12"]
  {
  }

  /** The names beside the printed ones. */
  lemma ArrowAliases()
    ensures NamedKey("arrowup") == Some(ArrowUp) && NamedKey("arrowdown") == Some(ArrowDown)
    ensures NamedKey("arrowleft") == Some(ArrowLeft) && NamedKey("arrowright") == Some(ArrowRight)
  {
    hide FunctionKey;
  }

  lemma ReturnAliases()
    ensures NamedKey("return") == Some(Enter) && NamedKey("escape") == Some(Escape)
  {
    hide FunctionKey;
  }

  lemma ShortAliases()
    ensures NamedKey("del") == Some(Delete) && NamedKey("ins") == Some(Insert)
  {
    hide FunctionKey;
  }

  // ----- hints -----

  /** The names as they are printed. */
  lemma LabelSpelling()
    ensures NamedLabel(ArrowUp) == "Up" && NamedLabel(ArrowDown) == "Down"
    ensures NamedLabel(ArrowLeft) == "Left" && NamedLabel(ArrowRight) == "Right"
  {
  }

  lemma EditingLabels()
    ensures NamedLabel(Home) == "Home" && NamedLabel(End) == "End"
    ensures NamedLabel(PageUp) == "PageUp" && NamedLabel(PageDown) == "PageDown"
    ensures NamedLabel(Tab) == "Tab" && NamedLabel(Enter) == "Enter" && NamedLabel(Space) == "Space"
  {
  }

  lemma MoreLabels()
    ensures NamedLabel(Backspace) == "Backspace" && NamedLabel(Escape) == "Esc"
    ensures NamedLabel(Delete) == "Delete" && NamedLabel(Insert) == "Insert"
    ensures NamedLabel(F1) == "F1" && NamedLabel(F12) == "F12"
  {
  }

  /** A hint spells the modifiers in one fixed order, each with its plus sign, then the key. */
  lemma HintSpelling(p: Platform, chord: KeyChord)
    requires !chord.key.Physical?
    ensures DisplayHint(p, chord) == Some(
      (if chord.mods.superKey then (if p.MacOs? then "Cmd" else "Super") + "+" else "")
      + (if chord.mods.ctrl then "Ctrl" + "+" else "")
      + (if chord.mods.alt then "Alt" + "+" else "")
      + (if chord.mods.shift then "Shift" + "+" else "")
      + (match chord.key
         case Character(c) => [if 'a' <= c <= 'z' then c - 'a' + 'A' else c]
         case Named(n) => NamedLabel(n)
         case _ => ""))
  {
    hide NamedLabel;
    var a: seq<Text> := if chord.mods.superKey then [SuperLabel(p)] else [];
    var b: seq<Text> := if chord.mods.ctrl then ["Ctrl"] else [];
    var c: seq<Text> := if chord.mods.alt then ["Alt"] else [];
    var d: seq<Text> := if chord.mods.shift then ["Shift"] else [];
    JoinedWithPlus(a + b + c + d);
    PlusedConcat(a + b + c, d);
    PlusedConcat(a + b, c);
    PlusedConcat(a, b);
  }

  /** Every part with a plus sign after it. */
  function Plused(parts: seq<Text>): (s: Text) {
    if parts == [] then [] else parts[0] + ['+'] + Plused(parts[1..])
  }

  lemma {:induction false} PlusedConcat(a: seq<Text>, b: seq<Text>)
    ensures Plused(a + b) == Plused(a) + Plused(b)
    ensures forall w: Text :: Plused([w]) == w + ['+']
    ensures Plused([]) == []
  {
    forall w: Text ensures Plused([w]) == w + ['+'] {
      assert [w][1..] == [];
    }
    if a == [] {
      assert a + b == b;
    } else {
      PlusedConcat(a[1..], b);
      assert (a + b)[1..] == a[1..] + b;
      assert Plused(a + b) == a[0] + ['+'] + (Plused(a[1..]) + Plused(b));
    }
  }

  lemma {:induction false} JoinedWithPlus(parts: seq<Text>)
    ensures parts != [] ==> Plused(parts) == Join(parts) + ['+']
  {
    if |parts| <= 1 {
      if |parts| == 1 {
        assert parts[1..] == [];
      }
    } else {
      JoinedWithPlus(parts[1..]);
      assert Plused(parts) == parts[0] + ['+'] + (Join(parts[1..]) + ['+']);
    }
  }
}

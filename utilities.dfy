/**
 * GetHotkeyTitle and IsDescendant of AppLogic/Helpers/Utilities.cs.  The
 * key-name lookup `Enum.GetName(typeof(Keys), vk)` and the Win32 `IsChild`
 * call are parameters.
 */
module Utilities {
  import opened Wrappers
  import opened WinApi

  /** `(mods & bit) != 0`. */
  predicate HasBit(mods: Flags, bit: Flags)
  {
    mods & bit != 0
  }

  /** The four modifiers a title shows. */
  datatype Modifiers = Modifiers(shift: bool, ctrl: bool, win: bool, alt: bool)

  function ModifiersOf(mods: Flags): Modifiers
  {
    Modifiers(HasBit(mods, ModShift), HasBit(mods, ModControl), HasBit(mods, ModWin), HasBit(mods, ModAlt))
  }

  /** A prefix when its modifier is there, nothing otherwise. */
  function Layer(present: bool, p: string): string
  {
    if present then p else ""
  }

  /** The prefixes, always in the order Shift, Ctrl, Win, Alt. */
  function Prefix(m: Modifiers): string
  {
    Layer(m.shift, "Shift+") + Layer(m.ctrl, "Ctrl+") + Layer(m.win, "Win+") + Layer(m.alt, "Alt+")
  }

  /** StringBuilder.Append of a null string appends nothing. */
  function KeyText(keyName: Option<string>): string
  {
    if keyName.Some? then keyName.value else ""
  }

  /** The title of a hotkey whose key is named `keyName` (None when the key has no name): at most 19 characters of prefix, then the key name. */
  function Title(mods: Flags, keyName: Option<string>): (r: string)
    ensures |KeyText(keyName)| <= |r| <= |KeyText(keyName)| + 19
    ensures r[|r| - |KeyText(keyName)|..] == KeyText(keyName)
  {
    Prefix(ModifiersOf(mods)) + KeyText(keyName)
  }

  /** GetHotkeyTitle: one conditional Append per modifier, then the key name. */
  method GetHotkeyTitle(mods: Flags, keyName: Option<string>) returns (title: string)
    ensures title == Title(mods, keyName)
  {
    var m := ModifiersOf(mods);
    title := "";
    if HasBit(mods, ModShift) {
      title := title + "Shift+";
    }
    assert title == Layer(m.shift, "Shift+");
    if HasBit(mods, ModControl) {
      title := title + "Ctrl+";
    }
    assert title == Layer(m.shift, "Shift+") + Layer(m.ctrl, "Ctrl+");
    if HasBit(mods, ModWin) {
      title := title + "Win+";
    }
    assert title == Layer(m.shift, "Shift+") + Layer(m.ctrl, "Ctrl+") + Layer(m.win, "Win+");
    if HasBit(mods, ModAlt) {
      title := title + "Alt+";
    }
    assert title == Prefix(m);
    title := title + KeyText(keyName);
  }

  // ---------------------------------------------------------------------------
  // Reading a title back
  // ---------------------------------------------------------------------------

  /** Whether `t` starts with `p`, and what follows if it does. */
  function StripPrefix(p: string, t: string): (r: (bool, string))
    ensures r.0 ==> p + r.1 == t
    ensures !r.0 ==> r.1 == t
  {
    if |p| <= |t| && t[..|p|] == p then (true, t[|p|..]) else (false, t)
  }

  /** The inverse of Title: the modifiers a title shows and the key name after them. */
  function ParseTitle(t: string): (Modifiers, string)
  {
    var (shift, t1) := StripPrefix("Shift+", t);
    var (ctrl, t2) := StripPrefix("Ctrl+", t1);
    var (win, t3) := StripPrefix("Win+", t2);
    var (alt, t4) := StripPrefix("Alt+", t3);
    (Modifiers(shift, ctrl, win, alt), t4)
  }

  /** Key names of the Keys enumeration hold no '+'. */
  predicate PlainName(s: string)
  {
    forall i :: 0 <= i < |s| ==> s[i] != '+'
  }

  /**
   * One strip of ParseTitle: a prefix ending in '+' is found exactly when it
   * is there, provided what follows it is a plain name or starts with another
   * letter.
   */
  lemma StripLayer(p: string, present: bool, rest: string)
    requires |p| > 0 && p[|p| - 1] == '+'
    requires PlainName(rest) || (|rest| > 0 && rest[0] != p[0])
    ensures StripPrefix(p, Layer(present, p) + rest) == (present, rest)
  {
    var t := Layer(present, p) + rest;
    if present {
      assert t[..|p|] == p;
      assert t[|p|..] == rest;
    } else {
      assert t == rest;
      if |p| <= |rest| && rest[..|p|] == p {
        assert false;
      }
    }
  }

  lemma ConcatAssoc4(a: string, b: string, c: string, d: string, e: string)
    ensures a + b + c + d + e == a + (b + (c + (d + e)))
  {
  }

  /** The title is the prefixes, each present iff its modifier is, followed by the key name. */
  lemma PrefixRoundTrip(m: Modifiers, key: string)
    requires PlainName(key)
    ensures ParseTitle(Prefix(m) + key) == (m, key)
  {
    var t3 := Layer(m.alt, "Alt+") + key;
    var t2 := Layer(m.win, "Win+") + t3;
    var t1 := Layer(m.ctrl, "Ctrl+") + t2;
    assert Prefix(m) + key == Layer(m.shift, "Shift+") + t1 by {
      ConcatAssoc4(Layer(m.shift, "Shift+"), Layer(m.ctrl, "Ctrl+"), Layer(m.win, "Win+"), Layer(m.alt, "Alt+"), key);
    }
    StripLayer("Alt+", m.alt, key);
    StripLayer("Win+", m.win, t3);
    StripLayer("Ctrl+", m.ctrl, t2);
    StripLayer("Shift+", m.shift, t1);
  }

  /**
   * Reading a title back gives exactly the four modifier bits that are set
   * and the key name: each prefix appears iff its bit is set.
   */
  lemma TitleRoundTrip(mods: Flags, key: string)
    requires PlainName(key)
    ensures ParseTitle(Title(mods, Some(key))) == (ModifiersOf(mods), key)
  {
    PrefixRoundTrip(ModifiersOf(mods), key);
  }

  /** Two titles of a key agree exactly when the four modifier bits do. */
  lemma TitleDeterminedByModifiers(m1: Flags, m2: Flags, key: string)
    requires PlainName(key)
    ensures Title(m1, Some(key)) == Title(m2, Some(key)) <==> ModifiersOf(m1) == ModifiersOf(m2)
  {
    TitleRoundTrip(m1, key);
    TitleRoundTrip(m2, key);
  }

  /** Only the four modifier bits matter: every higher bit, MOD_NOREPEAT among them, is ignored. */
  lemma OtherBitsIgnored(mods: Flags, keyName: Option<string>)
    ensures Title(mods, keyName) == Title(mods & 0xF, keyName)
  {
    LowBits(mods);
  }

  lemma LowBits(mods: Flags)
    ensures ModifiersOf(mods) == ModifiersOf(mods & 0xF)
  {
    assert (mods & 0xF) & ModShift == mods & ModShift && (mods & 0xF) & ModControl == mods & ModControl;
    assert (mods & 0xF) & ModWin == mods & ModWin && (mods & 0xF) & ModAlt == mods & ModAlt;
  }

  /** Registering with `mods | MOD_NOREPEAT` leaves the title as it is. */
  lemma NoRepeatIgnored(mods: Flags, keyName: Option<string>)
    ensures Title(mods | ModNoRepeat, keyName) == Title(mods, keyName)
  {
    OtherBitsIgnored(mods, keyName);
    OtherBitsIgnored(mods | ModNoRepeat, keyName);
    assert (mods | ModNoRepeat) & 0xF == mods & 0xF;
  }

  /** Without modifiers the title is just the key name; with `mods` it ends with it. */
  lemma TitleEndsWithKey(mods: Flags, keyName: Option<string>)
    ensures Title(0, keyName) == KeyText(keyName)
    ensures |Title(mods, keyName)| >= |KeyText(keyName)|
    ensures Title(mods, keyName)[|Title(mods, keyName)| - |KeyText(keyName)|..] == KeyText(keyName)
  {
    assert Prefix(ModifiersOf(0)) == "";
  }

  // ---------------------------------------------------------------------------
  // IsDescendant
  // ---------------------------------------------------------------------------

  /** IsDescendant: a null handle never is, a window is its own, otherwise `IsChild` decides. */
  function IsDescendant(hwndParent: Handle, hwnd: Handle, isChild: (Handle, Handle) -> bool): (r: bool)
    ensures hwnd == 0 ==> !r
    ensures hwnd != 0 && hwnd == hwndParent ==> r
    ensures hwnd != 0 && hwnd != hwndParent ==> (r <==> isChild(hwndParent, hwnd))
  {
    hwnd != 0 && (hwnd == hwndParent || isChild(hwndParent, hwnd))
  }

  /** Where `IsChild` is transitive, as descent in a window tree is, so is IsDescendant. */
  lemma IsDescendantTransitive(a: Handle, b: Handle, c: Handle, isChild: (Handle, Handle) -> bool)
    requires forall x, y, z :: isChild(x, y) && isChild(y, z) ==> isChild(x, z)
    requires IsDescendant(a, b, isChild) && IsDescendant(b, c, isChild)
    ensures IsDescendant(a, c, isChild)
  {
  }
}

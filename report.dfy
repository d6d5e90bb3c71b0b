/**
 * The report translator: turns the difference between two button masks of
 * one controller into edits of the boot-keyboard report (one modifier byte,
 * a reserved byte and six key slots).
 */
module Report {
  import opened Keymaps

  const SlotCount: nat := 6

  /** The mutable part of a boot-keyboard report: the modifier byte and the six key slots. */
  datatype KeyState = KeyState(modifier: bv8, keys: seq<bv8>)

  /** A report together with the out-flag that says whether a key slot was written. */
  datatype Translation = Translation(state: KeyState, changed: bool)

  /** The key slots after one slot edit, and whether a slot was written. */
  datatype SlotEdit = SlotEdit(keys: seq<bv8>, wrote: bool)

  function EmptyReport(): (k: KeyState)
    ensures |k.keys| == SlotCount && k.modifier == 0
    ensures forall j :: 0 <= j < |k.keys| ==> k.keys[j] == 0
  {
    KeyState(0, [0, 0, 0, 0, 0, 0])
  }

  /** The index of the first slot holding v, or |s| when there is none. */
  function FirstIndex(s: seq<bv8>, v: bv8): (n: nat)
    ensures n <= |s|
    ensures n < |s| ==> s[n] == v
    ensures forall j :: 0 <= j < n ==> s[j] != v
  {
    if s == [] then 0
    else if s[0] == v then 0
    else 1 + FirstIndex(s[1..], v)
  }

  /**
   * A regular key press: the code goes into the lowest-indexed empty slot;
   * when every slot is occupied nothing is written.
   */
  function PressKey(keys: seq<bv8>, entry: bv16): (r: SlotEdit)
    ensures |r.keys| == |keys|
    ensures r.wrote <==> 0 in keys
    ensures r.wrote ==> r.keys == keys[FirstIndex(keys, 0) := Code(entry)]
    ensures !r.wrote ==> r.keys == keys
  {
    var z := FirstIndex(keys, 0);
    if z < |keys| then SlotEdit(keys[z := Code(entry)], true) else SlotEdit(keys, false)
  }

  /**
   * A regular key release: the lowest-indexed slot whose value equals the whole
   * 16-bit entry is cleared; when no slot holds it nothing changes. A slot can
   * only equal an entry that fits in a byte, so the scan looks for that byte.
   */
  function ReleaseKey(keys: seq<bv8>, entry: bv16): (r: SlotEdit)
    ensures |r.keys| == |keys|
    ensures r.wrote <==> entry <= 0xFF && entry as bv8 in keys
    ensures r.wrote ==> r.keys == keys[FirstIndex(keys, entry as bv8) := 0]
    ensures !r.wrote ==> r.keys == keys
  {
    if entry <= 0xFF then
      var z := FirstIndex(keys, entry as bv8);
      if z < |keys| then SlotEdit(keys[z := 0], true) else SlotEdit(keys, false)
    else
      SlotEdit(keys, false)
  }

  /** A newly pressed button: a modifier is ORed in, a regular key takes a slot. */
  function PressEntry(t: Translation, entry: bv16): (r: Translation)
    ensures IsModifier(entry) ==> r == Translation(KeyState(t.state.modifier | Code(entry), t.state.keys), t.changed)
    ensures !IsModifier(entry) ==> r.state.modifier == t.state.modifier
  {
    if IsModifier(entry) then
      Translation(KeyState(t.state.modifier | Code(entry), t.state.keys), t.changed)
    else
      var e := PressKey(t.state.keys, entry);
      Translation(KeyState(t.state.modifier, e.keys), t.changed || e.wrote)
  }

  /** A newly released button: a modifier's bits are cleared, a regular key frees its slot. */
  function ReleaseEntry(t: Translation, entry: bv16): (r: Translation)
    ensures IsModifier(entry) ==> r == Translation(KeyState(t.state.modifier & !Code(entry), t.state.keys), t.changed)
    ensures !IsModifier(entry) ==> r.state.modifier == t.state.modifier
  {
    if IsModifier(entry) then
      Translation(KeyState(t.state.modifier & !Code(entry), t.state.keys), t.changed)
    else
      var e := ReleaseKey(t.state.keys, entry);
      Translation(KeyState(t.state.modifier, e.keys), t.changed || e.wrote)
  }

  /** One bit of the loop: first the press test, then the release test. */
  function StepBit(t: Translation, pressed: bool, released: bool, entry: bv16): Translation {
    var t1 := if pressed then PressEntry(t, entry) else t;
    if released then ReleaseEntry(t1, entry) else t1
  }

  /** One bit keeps the slot count, never resets the flag, writes slots only when it raises the flag, and without an edge does nothing. */
  lemma StepBitFacts(t: Translation, pressed: bool, released: bool, entry: bv16)
    ensures var r := StepBit(t, pressed, released, entry);
      && |r.state.keys| == |t.state.keys|
      && (t.changed ==> r.changed)
      && (!r.changed ==> r.state.keys == t.state.keys)
      && (!pressed && !released ==> r == t)
  {
  }

  /** Bit i went from 0 to 1. */
  predicate PressedAt(buttons: bv8, oldButtons: bv8, i: nat)
    requires i < 8
  {
    Bit(buttons, i) && !Bit(oldButtons, i)
  }

  /** Bit i went from 1 to 0. */
  predicate ReleasedAt(buttons: bv8, oldButtons: bv8, i: nat)
    requires i < 8
  {
    !Bit(buttons, i) && Bit(oldButtons, i)
  }

  /** The translator after the bits 0 .. n-1 have been handled. */
  function TranslateUpTo(t: Translation, buttons: bv8, oldButtons: bv8, keymap: seq<bv16>, n: nat): (r: Translation)
    requires n <= 8 && |keymap| == 8
    ensures |r.state.keys| == |t.state.keys|
    ensures t.changed ==> r.changed
    ensures !r.changed ==> r.state.keys == t.state.keys
    ensures buttons == oldButtons ==> r == t
  {
    if n == 0 then t
    else
      StepBit(TranslateUpTo(t, buttons, oldButtons, keymap, n - 1),
              PressedAt(buttons, oldButtons, n - 1), ReleasedAt(buttons, oldButtons, n - 1), keymap[n - 1])
  }

  /** The whole translation of one controller's mask change. */
  function Translate(t: Translation, buttons: bv8, oldButtons: bv8, keymap: seq<bv16>): (r: Translation)
    requires |keymap| == 8
    ensures |r.state.keys| == |t.state.keys|
    ensures t.changed ==> r.changed
    ensures !r.changed ==> r.state.keys == t.state.keys
    ensures buttons == oldButtons ==> r == t
  {
    TranslateUpTo(t, buttons, oldButtons, keymap, 8)
  }

  /** The eight bytes sent on the interrupt endpoint: modifier, reserved zero, six key slots. */
  function Serialize(k: KeyState): (bytes: seq<bv8>)
    requires |k.keys| == SlotCount
    ensures |bytes| == 8 && bytes[0] == k.modifier && bytes[1] == 0 && bytes[2..] == k.keys
    ensures Parse(bytes) == k
  {
    [k.modifier, 0] + k.keys
  }

  /** Reads the modifier and key slots back from an eight-byte report. */
  function Parse(bytes: seq<bv8>): (k: KeyState)
    requires |bytes| == 8
    ensures |k.keys| == SlotCount
  {
    KeyState(bytes[0], bytes[2..])
  }

  /** The two masks agree on every bit except possibly bit i. */
  predicate AgreeExcept(buttons: bv8, oldButtons: bv8, i: nat)
    requires i < 8
  {
    forall j :: 0 <= j < 8 && j != i ==> (Bit(buttons, j) <==> Bit(oldButtons, j))
  }

  /** When the masks differ at most at bit i, only that bit's entry acts. */
  lemma {:induction false} TranslateOneBit(t: Translation, buttons: bv8, oldButtons: bv8, keymap: seq<bv16>, i: nat, n: nat)
    requires |keymap| == 8 && i < 8 && n <= 8
    requires AgreeExcept(buttons, oldButtons, i)
    ensures TranslateUpTo(t, buttons, oldButtons, keymap, n) ==
      if n <= i then t
      else StepBit(t, PressedAt(buttons, oldButtons, i), ReleasedAt(buttons, oldButtons, i), keymap[i])
  {
    if n > 0 {
      TranslateOneBit(t, buttons, oldButtons, keymap, i, n - 1);
    }
  }

  /** Pressing a regular key that is not in the slots, then releasing it, restores the slots. */
  lemma SlotRoundTrip(keys: seq<bv8>, entry: bv16)
    requires 0 < entry <= 0xFF && !IsModifier(entry)
    requires Code(entry) !in keys
    ensures ReleaseKey(PressKey(keys, entry).keys, entry).keys == keys
  {
    assert Code(entry) == entry as bv8;
    var z := FirstIndex(keys, 0);
    if z < |keys| {
      var pressed := keys[z := Code(entry)];
      assert pressed[z] == entry as bv8;
      assert forall j :: 0 <= j < z ==> pressed[j] == keys[j] != entry as bv8;
      assert FirstIndex(pressed, entry as bv8) == z;
      assert pressed[z := 0] == keys;
    }
  }

  /**
   * Round trip of a regular key: a snapshot that presses only button i,
   * followed by one that releases it again, gives back the modifier byte and
   * all six slots, provided the key's code was not already in a slot. The
   * press is reported as a change exactly when a slot was free.
   */
  lemma RegularPressRelease(t: Translation, buttons: bv8, oldButtons: bv8, keymap: seq<bv16>, i: nat)
    requires ValidKeymap(keymap) && i < 8 && !IsModifier(keymap[i])
    requires AgreeExcept(buttons, oldButtons, i) && Bit(buttons, i) && !Bit(oldButtons, i)
    requires Code(keymap[i]) !in t.state.keys
    ensures var pressed := Translate(t, buttons, oldButtons, keymap);
      && pressed.changed == (t.changed || 0 in t.state.keys)
      && Translate(pressed, oldButtons, buttons, keymap).state == t.state
  {
    TranslateOneBit(t, buttons, oldButtons, keymap, i, 8);
    var pressed := Translate(t, buttons, oldButtons, keymap);
    TranslateOneBit(pressed, oldButtons, buttons, keymap, i, 8);
    SlotRoundTrip(t.state.keys, keymap[i]);
  }

  /**
   * Modifier press and release: the press ORs in the entry's single modifier
   * bit, the release clears exactly that bit whatever else is held, and
   * neither touches a key slot or the out-flag.
   */
  lemma ModifierPressRelease(t: Translation, buttons: bv8, oldButtons: bv8, keymap: seq<bv16>, i: nat)
    requires ValidKeymap(keymap) && i < 8 && IsModifier(keymap[i])
    requires AgreeExcept(buttons, oldButtons, i) && Bit(buttons, i) && !Bit(oldButtons, i)
    ensures var pressed := Translate(t, buttons, oldButtons, keymap);
      var released := Translate(pressed, oldButtons, buttons, keymap);
      && SingleBit(Code(keymap[i]))
      && pressed == Translation(KeyState(t.state.modifier | Code(keymap[i]), t.state.keys), t.changed)
      && released == Translation(KeyState(t.state.modifier & !Code(keymap[i]), t.state.keys), t.changed)
  {
    var c := Code(keymap[i]);
    TranslateOneBit(t, buttons, oldButtons, keymap, i, 8);
    var pressed := Translate(t, buttons, oldButtons, keymap);
    assert pressed == PressEntry(t, keymap[i]);
    TranslateOneBit(pressed, oldButtons, buttons, keymap, i, 8);
    assert Translate(pressed, oldButtons, buttons, keymap) == ReleaseEntry(pressed, keymap[i]);
    assert (t.state.modifier | c) & !c == t.state.modifier & !c;
  }

  /**
   * A change confined to buttons mapped to modifiers never writes a slot and
   * never raises the out-flag, so on its own it is not sent.
   */
  lemma {:induction false} ModifierOnlyUnchanged(t: Translation, buttons: bv8, oldButtons: bv8, keymap: seq<bv16>, n: nat)
    requires |keymap| == 8 && n <= 8
    requires forall j :: 0 <= j < 8 && Bit(buttons, j) != Bit(oldButtons, j) ==> IsModifier(keymap[j])
    ensures TranslateUpTo(t, buttons, oldButtons, keymap, n).changed == t.changed
    ensures TranslateUpTo(t, buttons, oldButtons, keymap, n).state.keys == t.state.keys
  {
    if n > 0 {
      ModifierOnlyUnchanged(t, buttons, oldButtons, keymap, n - 1);
    }
  }

  /** The statically allocated report, updated in place by the translator. */
  class KbdReport {
    var modifier: bv8
    var keys: seq<bv8>

    ghost predicate Valid()
      reads this
    {
      |keys| == SlotCount
    }

    function Value(): KeyState
      reads this
    {
      KeyState(modifier, keys)
    }

    constructor ()
      ensures Valid() && Value() == EmptyReport()
    {
      modifier := 0;
      keys := [0, 0, 0, 0, 0, 0];
    }

    /** The inner slot scan of a press: write the code into the first empty slot. */
    method TakeSlot(entry: bv16) returns (wrote: bool)
      requires Valid()
      modifies this
      ensures Valid() && modifier == old(modifier)
      ensures SlotEdit(keys, wrote) == PressKey(old(keys), entry)
    {
      wrote := false;
      for j := 0 to 6
        invariant keys == old(keys) && !wrote
        invariant forall jj :: 0 <= jj < j ==> keys[jj] != 0
      {
        if keys[j] == 0 {
          assert FirstIndex(keys, 0) == j;
          keys := keys[j := Code(entry)];
          wrote := true;
          return;
        }
      }
    }

    /** The inner slot scan of a release: clear the first slot holding the entry. */
    method FreeSlot(entry: bv16) returns (wrote: bool)
      requires Valid()
      modifies this
      ensures Valid() && modifier == old(modifier)
      ensures SlotEdit(keys, wrote) == ReleaseKey(old(keys), entry)
    {
      wrote := false;
      for j := 0 to 6
        invariant keys == old(keys) && !wrote
        invariant forall jj :: 0 <= jj < j ==> keys[jj] as bv16 != entry
      {
        if keys[j] as bv16 == entry {
          assert FirstIndex(keys, entry as bv8) == j;
          keys := keys[j := 0];
          wrote := true;
          return;
        }
      }
    }

    /** One bit of event_to_report: the press test, then the release test. */
    method ApplyBit(pressed: bool, released: bool, entry: bv16, changedIn: bool) returns (changed: bool)
      requires Valid() && !(pressed && released)
      modifies this
      ensures Valid()
      ensures Translation(Value(), changed) == StepBit(Translation(old(Value()), changedIn), pressed, released, entry)
    {
      changed := changedIn;
      if pressed {
        if entry & IsModMask != 0 {
          modifier := modifier | Code(entry);
        } else {
          var wrote := TakeSlot(entry);
          changed := changed || wrote;
        }
      }
      if released {
        if entry & IsModMask != 0 {
          modifier := modifier & !Code(entry);
        } else {
          var wrote := FreeSlot(entry);
          changed := changed || wrote;
        }
      }
    }

    /**
     * event_to_report: for each of the eight bits, a press edge adds the mapped
     * modifier or key, a release edge removes it. The out-flag is only ever set.
     */
    method ApplyEvent(buttons: bv8, oldButtons: bv8, keymap: seq<bv16>, changedIn: bool) returns (changed: bool)
      requires Valid() && |keymap| == 8
      modifies this
      ensures Valid()
      ensures Translation(Value(), changed) == Translate(Translation(old(Value()), changedIn), buttons, oldButtons, keymap)
    {
      changed := changedIn;
      for i := 0 to 8
        invariant Valid()
        invariant Translation(Value(), changed) == TranslateUpTo(Translation(old(Value()), changedIn), buttons, oldButtons, keymap, i)
      {
        var pressed := Bit(buttons, i) && !Bit(oldButtons, i);
        var released := !Bit(buttons, i) && Bit(oldButtons, i);
        changed := ApplyBit(pressed, released, keymap[i], changed);
      }
    }
  }
}

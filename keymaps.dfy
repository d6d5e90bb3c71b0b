/**
 * Build-time constants of the converter: the NES button bits, the keyboard
 * usage codes of the Keyboard/Keypad page (section 10 of the HID Usage Tables),
 * the modifier bits of the boot-keyboard report (Appendix B.1 of the USB Device
 * Class Definition for HID 1.11) and the two per-controller keymaps.
 */
module Keymaps {

  // Keyboard usage codes
  const KeyRight: bv16 := 0x4F
  const KeyLeft: bv16 := 0x50
  const KeyDown: bv16 := 0x51
  const KeyUp: bv16 := 0x52
  const KeyZ: bv16 := 0x1D
  const KeyA: bv16 := 0x04
  const KeyI: bv16 := 0x0C
  const KeyJ: bv16 := 0x0D
  const KeyK: bv16 := 0x0E
  const KeyL: bv16 := 0x0F
  const KeyM: bv16 := 0x10
  const KeyN: bv16 := 0x11
  const KeyEnter: bv16 := 0x28

  // Bits of the report's modifier byte
  const ModLeftAlt: bv16 := 0x04
  const ModLeftShift: bv16 := 0x02
  const ModLeftMeta: bv16 := 0x08

  /** Bit 8 of a keymap entry tags it as a modifier rather than a regular key. */
  const IsModMask: bv16 := 0x100

  // NES controller buttons, one bit each in the order the shift register emits them
  const NesA: bv8 := 0x01
  const NesB: bv8 := 0x02
  const NesSelect: bv8 := 0x04
  const NesStart: bv8 := 0x08
  const NesUp: bv8 := 0x10
  const NesDown: bv8 := 0x20
  const NesLeft: bv8 := 0x40
  const NesRight: bv8 := 0x80

  /** The single-bit mask `1 << k`. */
  function BitMask(k: nat): (r: bv8)
    requires k < 8
  {
    if k == 0 then 0x01 else if k == 1 then 0x02 else if k == 2 then 0x04 else if k == 3 then 0x08
    else if k == 4 then 0x10 else if k == 5 then 0x20 else if k == 6 then 0x40 else 0x80
  }

  /** Bit k of a button mask. */
  predicate Bit(mask: bv8, k: nat)
    requires k < 8
  {
    mask & BitMask(k) != 0
  }

  /** Bit is the source's `mask >> k & 1` test, and BitMask is `1 << k`. */
  lemma BitIsShift(mask: bv8, k: nat)
    requires k < 8
    ensures BitMask(k) == 1 << k
    ensures Bit(mask, k) <==> (mask >> k) & 1 == 1
  {
  }

  predicate IsModifier(entry: bv16) {
    entry & IsModMask != 0
  }

  /** The low byte of an entry: what lands in the modifier byte or in a key slot. */
  function Code(entry: bv16): bv8 {
    (entry & 0xFF) as bv8
  }

  /** A byte with exactly one bit set. */
  predicate SingleBit(b: bv8) {
    b != 0 && b & (b - 1) == 0
  }

  /**
   * What the translator relies on in a keymap: eight entries; every regular
   * entry is a nonzero code that fits a key slot, and no two regular entries
   * share a code; every modifier entry names exactly one modifier bit, and
   * no two modifier entries name the same bit.
   */
  predicate ValidKeymap(km: seq<bv16>) {
    && |km| == 8
    && (forall i :: 0 <= i < 8 && !IsModifier(km[i]) ==> 0 < km[i] <= 0xFF)
    && (forall i :: 0 <= i < 8 && IsModifier(km[i]) ==> km[i] & 0xFE00 == 0 && SingleBit(Code(km[i])))
    && (forall i, j :: 0 <= i < j < 8 && !IsModifier(km[i]) && !IsModifier(km[j]) ==> km[i] != km[j])
    && (forall i, j :: 0 <= i < j < 8 && IsModifier(km[i]) && IsModifier(km[j]) ==> Code(km[i]) & Code(km[j]) == 0)
  }

  /** No regular code and no modifier bit is shared between the two keymaps. */
  predicate DisjointKeymaps(a: seq<bv16>, b: seq<bv16>)
    requires |a| == 8 && |b| == 8
  {
    forall i, j :: 0 <= i < 8 && 0 <= j < 8 ==>
      (!IsModifier(a[i]) && !IsModifier(b[j]) ==> a[i] != b[j]) &&
      (IsModifier(a[i]) && IsModifier(b[j]) ==> Code(a[i]) & Code(b[j]) == 0)
  }

  /** Controller 1: A, B, Select, Start, Up, Down, Left, Right. */
  function P1Keymap(): (km: seq<bv16>)
    ensures ValidKeymap(km)
  {
    [KeyZ, KeyA, ModLeftAlt | IsModMask, KeyEnter, KeyUp, KeyDown, KeyLeft, KeyRight]
  }

  /** Controller 2: A, B, Select, Start, Up, Down, Left, Right. */
  function P2Keymap(): (km: seq<bv16>)
    ensures ValidKeymap(km)
  {
    [KeyM, KeyN, ModLeftShift | IsModMask, ModLeftMeta | IsModMask, KeyI, KeyJ, KeyK, KeyL]
  }

  /** The two controllers never share a key code or a modifier bit. */
  lemma KeymapsDisjoint()
    ensures DisjointKeymaps(P1Keymap(), P2Keymap())
  {
    var a, b := P1Keymap(), P2Keymap();
    forall i | 0 <= i < 8
      ensures forall j :: 0 <= j < 8 ==>
        && (!IsModifier(a[i]) && !IsModifier(b[j]) ==> a[i] != b[j])
        && (IsModifier(a[i]) && IsModifier(b[j]) ==> Code(a[i]) & Code(b[j]) == 0)
    {
      if i == 0 {
      } else if i == 1 {
      } else if i == 2 {
      } else if i == 3 {
      } else if i == 4 {
      } else if i == 5 {
      } else if i == 6 {
      } else {
      }
    }
  }

  /** Disjointness does not depend on the order of the two keymaps. */
  lemma DisjointSymmetric(a: seq<bv16>, b: seq<bv16>)
    requires |a| == 8 && |b| == 8 && DisjointKeymaps(a, b)
    ensures DisjointKeymaps(b, a)
  {
    forall i, j | 0 <= i < 8 && 0 <= j < 8
      ensures IsModifier(b[i]) && IsModifier(a[j]) ==> Code(b[i]) & Code(a[j]) == 0
    {
      assert IsModifier(a[j]) && IsModifier(b[i]) ==> Code(a[j]) & Code(b[i]) == 0;
    }
  }
}

/**
 * What the report means. When the translator sees every snapshot the poll
 * machine produces, the report always reflects the controllers: the modifier
 * byte is exactly the OR of the modifier bits of the held buttons, every
 * nonzero key slot holds the code of a held regular button, and no code
 * occupies two slots. In particular no key stays pressed after its button
 * is released.
 */
module Consistency {
  import opened Keymaps
  import opened Report
  import opened Poll
  import opened Task

  /** Some button held in m is mapped by km to the regular key code c. */
  ghost predicate Held(m: bv8, km: seq<bv16>, c: bv8)
    requires |km| == 8
  {
    exists i :: 0 <= i < 8 && Bit(m, i) && !IsModifier(km[i]) && Code(km[i]) == c
  }

  /** The modifier bit a held button i contributes, or nothing. */
  function ModOf(m: bv8, km: seq<bv16>, i: nat): bv8
    requires |km| == 8 && i < 8
  {
    if Bit(m, i) && IsModifier(km[i]) then Code(km[i]) else 0
  }

  /** The OR of the modifier bits of the held buttons among 0 .. n-1. */
  function Mods(m: bv8, km: seq<bv16>, n: nat): bv8
    requires |km| == 8 && n <= 8
  {
    if n == 0 then 0 else Mods(m, km, n - 1) | ModOf(m, km, n - 1)
  }

  /** The same OR, leaving out button i. */
  function ModsExcept(m: bv8, km: seq<bv16>, i: nat, n: nat): bv8
    requires |km| == 8 && i < 8 && n <= 8
  {
    if n == 0 then 0
    else if n - 1 == i then ModsExcept(m, km, i, n - 1)
    else ModsExcept(m, km, i, n - 1) | ModOf(m, km, n - 1)
  }

  /** Both keymaps are well formed and share no code and no modifier bit. */
  predicate Compatible(km: seq<bv16>, kmO: seq<bv16>) {
    && ValidKeymap(km) && ValidKeymap(kmO)
    && DisjointKeymaps(km, kmO) && DisjointKeymaps(kmO, km)
  }

  /** Every occupied slot holds a code held through one of the two controllers. */
  ghost predicate SlotsHeld(keys: seq<bv8>, m: bv8, km: seq<bv16>, other: bv8, kmO: seq<bv16>)
    requires |km| == 8 && |kmO| == 8
  {
    forall j :: 0 <= j < |keys| && keys[j] != 0 ==> Held(m, km, keys[j]) || Held(other, kmO, keys[j])
  }

  /** No code occupies two slots. */
  ghost predicate NoDuplicates(keys: seq<bv8>) {
    forall j1, j2 :: 0 <= j1 < j2 < |keys| && keys[j1] != 0 ==> keys[j1] != keys[j2]
  }

  /**
   * The report reflects mask m under keymap km together with mask other
   * under keymap kmO.
   */
  ghost predicate Reflects(k: KeyState, m: bv8, km: seq<bv16>, other: bv8, kmO: seq<bv16>)
    requires |km| == 8 && |kmO| == 8
  {
    && |k.keys| == SlotCount
    && k.modifier == Mods(m, km, 8) | Mods(other, kmO, 8)
    && SlotsHeld(k.keys, m, km, other, kmO)
    && NoDuplicates(k.keys)
  }

  /** The mask with bit k cleared. */
  function ClearBit(m: bv8, k: nat): (r: bv8)
    requires k < 8
    ensures forall j :: 0 <= j < 8 ==> (Bit(r, j) <==> Bit(m, j) && j != k)
  {
    if Bit(m, k) then m ^ BitMask(k) else m
  }

  /** The mask m with bit k set to v. */
  function WithBit(m: bv8, k: nat, v: bool): (r: bv8)
    requires k < 8
    ensures forall j :: 0 <= j < 8 ==> (Bit(r, j) <==> if j == k then v else Bit(m, j))
  {
    if v then SetBit(m, k) else ClearBit(m, k)
  }

  /** The mask equal to b on bits below n and to o on the rest. */
  function Mid(b: bv8, o: bv8, n: nat): (r: bv8)
    requires n <= 8
    ensures forall j :: 0 <= j < 8 ==> (Bit(r, j) <==> if j < n then Bit(b, j) else Bit(o, j))
  {
    if n == 0 then o else WithBit(Mid(b, o, n - 1), n - 1, Bit(b, n - 1))
  }

  /** A mask is determined by its eight bits. */
  lemma BitsDetermine(a: bv8, b: bv8)
    requires forall j :: 0 <= j < 8 ==> (Bit(a, j) <==> Bit(b, j))
    ensures a == b
  {
    assert Bit(a, 0) == Bit(b, 0) && Bit(a, 1) == Bit(b, 1) && Bit(a, 2) == Bit(b, 2) && Bit(a, 3) == Bit(b, 3);
    assert Bit(a, 4) == Bit(b, 4) && Bit(a, 5) == Bit(b, 5) && Bit(a, 6) == Bit(b, 6) && Bit(a, 7) == Bit(b, 7);
  }

  lemma {:induction false} ModsSplit(m: bv8, km: seq<bv16>, i: nat, n: nat)
    requires |km| == 8 && i < 8 && n <= 8
    ensures Mods(m, km, n) == ModsExcept(m, km, i, n) | (if i < n then ModOf(m, km, i) else 0)
  {
    if n > 0 {
      ModsSplit(m, km, i, n - 1);
      if n - 1 != i {
        OrSwap(ModsExcept(m, km, i, n - 1), if i < n - 1 then ModOf(m, km, i) else 0, ModOf(m, km, n - 1));
      }
    }
  }

  lemma {:induction false} ModsExceptAvoid(m: bv8, km: seq<bv16>, i: nat, c: bv8, n: nat)
    requires |km| == 8 && i < 8 && n <= 8
    requires forall j :: 0 <= j < 8 && j != i && IsModifier(km[j]) ==> Code(km[j]) & c == 0
    ensures ModsExcept(m, km, i, n) & c == 0
  {
    if n > 0 {
      ModsExceptAvoid(m, km, i, c, n - 1);
      if n - 1 != i {
        OrAvoid(ModsExcept(m, km, i, n - 1), ModOf(m, km, n - 1), c);
      }
    }
  }

  lemma OrSwap(e: bv8, mine: bv8, d: bv8)
    ensures (e | mine) | d == (e | d) | mine
  {
  }

  lemma OrAvoid(e: bv8, d: bv8, c: bv8)
    requires e & c == 0 && d & c == 0
    ensures (e | d) & c == 0
  {
  }

  lemma DistinctModifier(km: seq<bv16>, i: nat, j: nat)
    requires ValidKeymap(km) && i < 8 && j < 8 && i != j && IsModifier(km[i]) && IsModifier(km[j])
    ensures Code(km[i]) & Code(km[j]) == 0
  {
    if j < i {
      assert Code(km[j]) & Code(km[i]) == 0;
    }
  }

  lemma {:induction false} ModsExceptAgree(m: bv8, m': bv8, km: seq<bv16>, i: nat, n: nat)
    requires |km| == 8 && i < 8 && n <= 8
    requires forall j :: 0 <= j < 8 && j != i ==> ModOf(m, km, j) == ModOf(m', km, j)
    ensures ModsExcept(m, km, i, n) == ModsExcept(m', km, i, n)
  {
    if n > 0 {
      ModsExceptAgree(m, m', km, i, n - 1);
    }
  }

  /** A modifier bit of one keymap is never among the held modifiers of the other. */
  lemma {:induction false} ModsAvoid(m: bv8, km: seq<bv16>, c: bv8, n: nat)
    requires |km| == 8 && n <= 8
    requires forall j :: 0 <= j < 8 && IsModifier(km[j]) ==> Code(km[j]) & c == 0
    ensures Mods(m, km, n) & c == 0
  {
    if n > 0 {
      ModsAvoid(m, km, c, n - 1);
    }
  }

  lemma {:induction false} ModsOfNothing(km: seq<bv16>, n: nat)
    requires |km| == 8 && n <= 8
    ensures Mods(0, km, n) == 0
  {
    if n > 0 {
      ModsOfNothing(km, n - 1);
      assert !Bit(0, n - 1);
    }
  }

  /** Distinct regular buttons of a keymap send distinct, nonzero codes. */
  lemma RegularCodes(km: seq<bv16>, i: nat, j: nat)
    requires ValidKeymap(km) && i < 8 && j < 8 && !IsModifier(km[i]) && !IsModifier(km[j])
    ensures Code(km[i]) != 0
    ensures i != j ==> Code(km[i]) != Code(km[j])
  {
    if i < j {
      assert km[i] != km[j];
    } else if j < i {
      assert km[j] != km[i];
    }
  }

  /** A regular code of one keymap is never held through the other. */
  lemma NotHeldOther(km: seq<bv16>, i: nat, other: bv8, kmO: seq<bv16>)
    requires Compatible(km, kmO) && i < 8 && !IsModifier(km[i])
    ensures !Held(other, kmO, Code(km[i]))
  {
  }

  /** Which regular codes are held once bit i has been set. */
  lemma HeldAfterPress(m': bv8, m: bv8, km: seq<bv16>, i: nat, x: bv8)
    requires |km| == 8 && i < 8 && AgreeExcept(m', m, i) && Bit(m', i) && !Bit(m, i)
    ensures Held(m', km, x) <==> Held(m, km, x) || (!IsModifier(km[i]) && x == Code(km[i]))
  {
    if Held(m', km, x) {
      var j :| 0 <= j < 8 && Bit(m', j) && !IsModifier(km[j]) && Code(km[j]) == x;
      if j != i {
        assert Bit(m, j);
      }
    }
    if Held(m, km, x) {
      var j :| 0 <= j < 8 && Bit(m, j) && !IsModifier(km[j]) && Code(km[j]) == x;
      assert j != i && Bit(m', j);
    }
    if !IsModifier(km[i]) && x == Code(km[i]) {
      assert Bit(m', i);
    }
  }

  /** Which regular codes are held once bit i has been cleared. */
  lemma HeldAfterRelease(m': bv8, m: bv8, km: seq<bv16>, i: nat, x: bv8)
    requires ValidKeymap(km) && i < 8 && AgreeExcept(m', m, i) && !Bit(m', i) && Bit(m, i)
    ensures Held(m', km, x) <==> Held(m, km, x) && (IsModifier(km[i]) || x != Code(km[i]))
  {
    if Held(m', km, x) {
      var j :| 0 <= j < 8 && Bit(m', j) && !IsModifier(km[j]) && Code(km[j]) == x;
      assert j != i && Bit(m, j);
      if !IsModifier(km[i]) {
        RegularCodes(km, j, i);
      }
    }
    if Held(m, km, x) && (IsModifier(km[i]) || x != Code(km[i])) {
      var j :| 0 <= j < 8 && Bit(m, j) && !IsModifier(km[j]) && Code(km[j]) == x;
      assert j != i && Bit(m', j);
    }
  }

  /** Bit i unchanged: the same codes are held. */
  lemma HeldSame(m': bv8, m: bv8, km: seq<bv16>, i: nat, x: bv8)
    requires |km| == 8 && i < 8 && AgreeExcept(m', m, i) && (Bit(m', i) <==> Bit(m, i))
    ensures Held(m', km, x) <==> Held(m, km, x)
  {
    if Held(m', km, x) {
      var j :| 0 <= j < 8 && Bit(m', j) && !IsModifier(km[j]) && Code(km[j]) == x;
      assert Bit(m, j);
    }
    if Held(m, km, x) {
      var j :| 0 <= j < 8 && Bit(m, j) && !IsModifier(km[j]) && Code(km[j]) == x;
      assert Bit(m', j);
    }
  }

  /** Outside bit i, m' and m hold the same modifier buttons. */
  lemma ModOfAgree(m': bv8, m: bv8, km: seq<bv16>, i: nat)
    requires |km| == 8 && i < 8 && AgreeExcept(m', m, i)
    ensures forall j :: 0 <= j < 8 && j != i ==> ModOf(m', km, j) == ModOf(m, km, j)
  {
    forall j | 0 <= j < 8 && j != i
      ensures ModOf(m', km, j) == ModOf(m, km, j)
    {
      assert Bit(m', j) == Bit(m, j);
    }
  }

  /** The modifier bit of button i is not named by any other button of a valid keymap. */
  lemma OthersAvoid(km: seq<bv16>, i: nat)
    requires ValidKeymap(km) && i < 8 && IsModifier(km[i])
    ensures forall j :: 0 <= j < 8 && j != i && IsModifier(km[j]) ==> Code(km[j]) & Code(km[i]) == 0
  {
    forall j | 0 <= j < 8 && j != i && IsModifier(km[j])
      ensures Code(km[j]) & Code(km[i]) == 0
    {
      DistinctModifier(km, j, i);
    }
  }

  /** Bit i contributes the same to both masks: the held modifiers agree. */
  lemma ModsUnchanged(m': bv8, m: bv8, km: seq<bv16>, i: nat)
    requires |km| == 8 && i < 8 && AgreeExcept(m', m, i) && ModOf(m', km, i) == ModOf(m, km, i)
    ensures Mods(m', km, 8) == Mods(m, km, 8)
  {
    ModsSplit(m', km, i, 8);
    ModsSplit(m, km, i, 8);
    ModOfAgree(m', m, km, i);
    ModsExceptAgree(m', m, km, i, 8);
  }

  /** A newly held modifier button adds its bit. */
  lemma ModsPressed(m': bv8, m: bv8, km: seq<bv16>, i: nat)
    requires |km| == 8 && i < 8 && AgreeExcept(m', m, i) && Bit(m', i) && !Bit(m, i) && IsModifier(km[i])
    ensures Mods(m', km, 8) == Mods(m, km, 8) | Code(km[i])
  {
    ModsSplit(m', km, i, 8);
    ModsSplit(m, km, i, 8);
    ModOfAgree(m', m, km, i);
    ModsExceptAgree(m', m, km, i, 8);
    OrNothing(ModsExcept(m, km, i, 8));
  }

  /** A released modifier button takes its bit away, since no other button names it. */
  lemma ModsReleased(m': bv8, m: bv8, km: seq<bv16>, i: nat)
    requires |km| == 8 && i < 8 && AgreeExcept(m', m, i) && !Bit(m', i) && Bit(m, i) && IsModifier(km[i])
    requires forall j :: 0 <= j < 8 && j != i && IsModifier(km[j]) ==> Code(km[j]) & Code(km[i]) == 0
    ensures Mods(m', km, 8) == Mods(m, km, 8) & !Code(km[i])
  {
    ModsSplit(m', km, i, 8);
    ModsSplit(m, km, i, 8);
    ModOfAgree(m', m, km, i);
    ModsExceptAgree(m', m, km, i, 8);
    ModsExceptAvoid(m, km, i, Code(km[i]), 8);
    OrNothing(ModsExcept(m, km, i, 8));
    OrClearOwn(ModsExcept(m, km, i, 8), Code(km[i]));
  }

  lemma OrNothing(e: bv8)
    ensures e | 0 == e
  {
  }

  lemma OrClearOwn(e: bv8, c: bv8)
    requires e & c == 0
    ensures (e | c) & !c == e
  {
  }

  lemma OrClearOther(x: bv8, o: bv8, c: bv8)
    requires o & c == 0
    ensures (x | o) & !c == (x & !c) | o
  {
  }

  /** A modifier bit of km is never among the held modifiers of kmO. */
  lemma ModsOtherAvoid(km: seq<bv16>, i: nat, other: bv8, kmO: seq<bv16>)
    requires Compatible(km, kmO) && i < 8 && IsModifier(km[i])
    ensures Mods(other, kmO, 8) & Code(km[i]) == 0
  {
    forall j | 0 <= j < 8 && IsModifier(kmO[j])
      ensures Code(kmO[j]) & Code(km[i]) == 0
    {
      assert Code(km[i]) & Code(kmO[j]) == 0;
    }
    ModsAvoid(other, kmO, Code(km[i]), 8);
  }

  /** Pressing a modifier button ORs its bit into the modifier byte, as the held set now says. */
  lemma PressModifierReflects(t: Translation, m': bv8, m: bv8, i: nat, km: seq<bv16>, other: bv8, kmO: seq<bv16>)
    requires Compatible(km, kmO) && i < 8 && AgreeExcept(m', m, i) && Bit(m', i) && !Bit(m, i) && IsModifier(km[i])
    requires Reflects(t.state, m, km, other, kmO)
    ensures Reflects(PressEntry(t, km[i]).state, m', km, other, kmO)
  {
    ModsPressed(m', m, km, i);
    OrSwap(Mods(m, km, 8), Mods(other, kmO, 8), Code(km[i]));
    forall x { HeldAfterPress(m', m, km, i, x); }
  }

  /** Releasing a modifier button clears its bit, which no other held button shares. */
  lemma ReleaseModifierReflects(t: Translation, m': bv8, m: bv8, i: nat, km: seq<bv16>, other: bv8, kmO: seq<bv16>)
    requires Compatible(km, kmO) && i < 8 && AgreeExcept(m', m, i) && !Bit(m', i) && Bit(m, i) && IsModifier(km[i])
    requires Reflects(t.state, m, km, other, kmO)
    ensures Reflects(ReleaseEntry(t, km[i]).state, m', km, other, kmO)
  {
    OthersAvoid(km, i);
    ModsReleased(m', m, km, i);
    ModsOtherAvoid(km, i, other, kmO);
    OrClearOther(Mods(m, km, 8), Mods(other, kmO, 8), Code(km[i]));
    forall x { HeldAfterRelease(m', m, km, i, x); }
  }

  /** Pressing a regular button writes a code no slot holds yet. */
  lemma PressRegularReflects(t: Translation, m': bv8, m: bv8, i: nat, km: seq<bv16>, other: bv8, kmO: seq<bv16>)
    requires Compatible(km, kmO) && i < 8 && AgreeExcept(m', m, i) && Bit(m', i) && !Bit(m, i) && !IsModifier(km[i])
    requires Reflects(t.state, m, km, other, kmO)
    ensures Reflects(PressEntry(t, km[i]).state, m', km, other, kmO)
  {
    ModsUnchanged(m', m, km, i);
    PressSlotsHeld(t.state.keys, m', m, km, i, other, kmO);
    NotHeldOther(km, i, other, kmO);
    NotHeldYet(m, km, i);
    RegularCodes(km, i, i);
    PressNoDuplicates(t.state.keys, km[i]);
  }

  /** The code of a button not held in m is held by no other button of a valid keymap. */
  lemma NotHeldYet(m: bv8, km: seq<bv16>, i: nat)
    requires ValidKeymap(km) && i < 8 && !Bit(m, i) && !IsModifier(km[i])
    ensures !Held(m, km, Code(km[i]))
  {
    if Held(m, km, Code(km[i])) {
      var j :| 0 <= j < 8 && Bit(m, j) && !IsModifier(km[j]) && Code(km[j]) == Code(km[i]);
      RegularCodes(km, i, j);
    }
  }

  /** After a press every occupied slot is still held, the new one by button i. */
  lemma PressSlotsHeld(keys: seq<bv8>, m': bv8, m: bv8, km: seq<bv16>, i: nat, other: bv8, kmO: seq<bv16>)
    requires |km| == 8 && |kmO| == 8 && i < 8 && AgreeExcept(m', m, i) && Bit(m', i) && !Bit(m, i) && !IsModifier(km[i])
    requires SlotsHeld(keys, m, km, other, kmO)
    ensures SlotsHeld(PressKey(keys, km[i]).keys, m', km, other, kmO)
  {
    forall x { HeldAfterPress(m', m, km, i, x); }
  }

  /** Writing a nonzero code that no slot holds keeps the slots free of duplicates. */
  lemma PressNoDuplicates(keys: seq<bv8>, entry: bv16)
    requires NoDuplicates(keys) && Code(entry) != 0 && Code(entry) !in keys
    ensures NoDuplicates(PressKey(keys, entry).keys)
  {
  }

  /** Releasing a regular button empties the one slot that holds its code. */
  lemma ReleaseRegularReflects(t: Translation, m': bv8, m: bv8, i: nat, km: seq<bv16>, other: bv8, kmO: seq<bv16>)
    requires Compatible(km, kmO) && i < 8 && AgreeExcept(m', m, i) && !Bit(m', i) && Bit(m, i) && !IsModifier(km[i])
    requires Reflects(t.state, m, km, other, kmO)
    ensures Reflects(ReleaseEntry(t, km[i]).state, m', km, other, kmO)
  {
    ModsUnchanged(m', m, km, i);
    RegularCodes(km, i, i);
    ReleaseSlotsHeld(t.state.keys, m', m, km, i, other, kmO);
    ReleaseNoDuplicates(t.state.keys, km[i]);
  }

  /** Clearing a slot keeps the slots free of duplicates, and no slot holds the released code after. */
  lemma ReleaseNoDuplicates(keys: seq<bv8>, entry: bv16)
    requires NoDuplicates(keys) && 0 < entry <= 0xFF
    ensures NoDuplicates(ReleaseKey(keys, entry).keys)
    ensures entry as bv8 !in ReleaseKey(keys, entry).keys
  {
    var c := entry as bv8;
    var f := FirstIndex(keys, c);
    assert forall j :: 0 <= j < |keys| && j != f ==> keys[j] != c;
  }

  /** After a release every occupied slot holds a code still held. */
  lemma ReleaseSlotsHeld(keys: seq<bv8>, m': bv8, m: bv8, km: seq<bv16>, i: nat, other: bv8, kmO: seq<bv16>)
    requires ValidKeymap(km) && |kmO| == 8 && i < 8 && AgreeExcept(m', m, i) && !Bit(m', i) && Bit(m, i) && !IsModifier(km[i])
    requires SlotsHeld(keys, m, km, other, kmO) && NoDuplicates(keys)
    ensures SlotsHeld(ReleaseKey(keys, km[i]).keys, m', km, other, kmO)
  {
    var keys' := ReleaseKey(keys, km[i]).keys;
    ReleaseNoDuplicates(keys, km[i]);
    assert km[i] as bv8 == Code(km[i]);
    forall j | 0 <= j < |keys'| && keys'[j] != 0
      ensures Held(m', km, keys'[j]) || Held(other, kmO, keys'[j])
    {
      assert keys'[j] == keys[j];
      HeldAfterRelease(m', m, km, i, keys'[j]);
    }
  }

  /** One bit of the translator loop keeps the report in step with the masks. */
  lemma StepReflects(t: Translation, m': bv8, m: bv8, i: nat, km: seq<bv16>, other: bv8, kmO: seq<bv16>)
    requires Compatible(km, kmO) && i < 8 && AgreeExcept(m', m, i)
    requires Reflects(t.state, m, km, other, kmO)
    ensures Reflects(StepBit(t, PressedAt(m', m, i), ReleasedAt(m', m, i), km[i]).state, m', km, other, kmO)
  {
    if PressedAt(m', m, i) {
      assert !ReleasedAt(m', m, i);
      if IsModifier(km[i]) {
        PressModifierReflects(t, m', m, i, km, other, kmO);
      } else {
        PressRegularReflects(t, m', m, i, km, other, kmO);
      }
    } else if ReleasedAt(m', m, i) {
      if IsModifier(km[i]) {
        ReleaseModifierReflects(t, m', m, i, km, other, kmO);
      } else {
        ReleaseRegularReflects(t, m', m, i, km, other, kmO);
      }
    } else {
      SameReflects(t.state, m', m, i, km, other, kmO);
    }
  }

  /** Bit i unchanged: whatever reflected m reflects m'. */
  lemma SameReflects(k: KeyState, m': bv8, m: bv8, i: nat, km: seq<bv16>, other: bv8, kmO: seq<bv16>)
    requires Compatible(km, kmO) && i < 8 && AgreeExcept(m', m, i) && (Bit(m', i) <==> Bit(m, i))
    requires Reflects(k, m, km, other, kmO)
    ensures Reflects(k, m', km, other, kmO)
  {
    assert ModOf(m', km, i) == ModOf(m, km, i);
    ModsUnchanged(m', m, km, i);
    forall j | 0 <= j < |k.keys| && k.keys[j] != 0
      ensures Held(m', km, k.keys[j]) || Held(other, kmO, k.keys[j])
    {
      HeldSame(m', m, km, i, k.keys[j]);
    }
  }

  /** The translator loop over bits 0 .. n-1 keeps the report in step with the mask handled so far. */
  lemma {:induction false} TranslateUpToReflects(t: Translation, b: bv8, o: bv8, km: seq<bv16>, other: bv8, kmO: seq<bv16>, n: nat)
    requires Compatible(km, kmO) && n <= 8
    requires Reflects(t.state, o, km, other, kmO)
    ensures Reflects(TranslateUpTo(t, b, o, km, n).state, Mid(b, o, n), km, other, kmO)
  {
    if n > 0 {
      TranslateUpToReflects(t, b, o, km, other, kmO, n - 1);
      MidStep(b, o, n);
      StepReflects(TranslateUpTo(t, b, o, km, n - 1), Mid(b, o, n), Mid(b, o, n - 1), n - 1, km, other, kmO);
    }
  }

  /** From Mid(b, o, n-1) to Mid(b, o, n) only bit n-1 moves, and it moves as from o to b. */
  lemma MidStep(b: bv8, o: bv8, n: nat)
    requires 0 < n <= 8
    ensures AgreeExcept(Mid(b, o, n), Mid(b, o, n - 1), n - 1)
    ensures PressedAt(Mid(b, o, n), Mid(b, o, n - 1), n - 1) == PressedAt(b, o, n - 1)
    ensures ReleasedAt(Mid(b, o, n), Mid(b, o, n - 1), n - 1) == ReleasedAt(b, o, n - 1)
  {
  }

  /** Translating one controller from o to b: the report now reflects b. */
  lemma TranslateReflects(t: Translation, b: bv8, o: bv8, km: seq<bv16>, other: bv8, kmO: seq<bv16>)
    requires Compatible(km, kmO)
    requires Reflects(t.state, o, km, other, kmO)
    ensures Reflects(Translate(t, b, o, km).state, b, km, other, kmO)
  {
    TranslateUpToReflects(t, b, o, km, other, kmO, 8);
    BitsDetermine(Mid(b, o, 8), b);
  }

  lemma ReflectsSymmetric(k: KeyState, m: bv8, km: seq<bv16>, other: bv8, kmO: seq<bv16>)
    requires |km| == 8 && |kmO| == 8
    requires Reflects(k, m, km, other, kmO)
    ensures Reflects(k, other, kmO, m, km)
  {
    OrCommutes(Mods(m, km, 8), Mods(other, kmO, 8));
  }

  lemma OrCommutes(a: bv8, b: bv8)
    ensures a | b == b | a
  {
  }

  lemma KeymapsCompatible()
    ensures Compatible(P1Keymap(), P2Keymap())
    ensures Compatible(P2Keymap(), P1Keymap())
  {
    KeymapsDisjoint();
    DisjointSymmetric(P1Keymap(), P2Keymap());
  }

  /** Handling one snapshot: a report that reflected its previous masks reflects its new ones. */
  lemma HandleEventReflects(k: KeyState, e: ButtonState)
    requires Reflects(k, e.p1Old, P1Keymap(), e.p2Old, P2Keymap())
    ensures Reflects(HandleEvent(k, e).state, e.p1, P1Keymap(), e.p2, P2Keymap())
  {
    KeymapsCompatible();
    var t1 := Translate(Translation(k, false), e.p1, e.p1Old, P1Keymap());
    TranslateReflects(Translation(k, false), e.p1, e.p1Old, P1Keymap(), e.p2Old, P2Keymap());
    ReflectsSymmetric(t1.state, e.p1, P1Keymap(), e.p2Old, P2Keymap());
    TranslateReflects(t1, e.p2, e.p2Old, P2Keymap(), e.p1, P1Keymap());
    ReflectsSymmetric(Translate(t1, e.p2, e.p2Old, P2Keymap()).state, e.p2, P2Keymap(), e.p1, P1Keymap());
  }

  /** The empty report reflects two idle controllers. */
  lemma EmptyReflectsIdle()
    ensures Reflects(EmptyReport(), 0, P1Keymap(), 0, P2Keymap())
  {
    ModsOfNothing(P1Keymap(), 8);
    ModsOfNothing(P2Keymap(), 8);
  }

  /** In a report that reflects the controllers, the code of a regular button that is not held occupies no slot. */
  lemma ReleasedAbsent(k: KeyState, m: bv8, km: seq<bv16>, other: bv8, kmO: seq<bv16>, i: nat)
    requires Compatible(km, kmO) && i < 8 && !Bit(m, i) && !IsModifier(km[i])
    requires Reflects(k, m, km, other, kmO)
    ensures Code(km[i]) !in k.keys
  {
    if Code(km[i]) in k.keys {
      var j :| 0 <= j < |k.keys| && k.keys[j] == Code(km[i]);
      RegularCodes(km, i, i);
      NotHeldYet(m, km, i);
      NotHeldOther(km, i, other, kmO);
    }
  }

  /**
   * The round trip of a regular key holds for every report the firmware can
   * reach: pressing a regular button of controller 1 and releasing it again
   * gives back the modifier byte and all six slots.
   */
  lemma P1PressRelease(t: Translation, m: bv8, other: bv8, buttons: bv8, i: nat)
    requires Reflects(t.state, m, P1Keymap(), other, P2Keymap())
    requires i < 8 && !IsModifier(P1Keymap()[i])
    requires AgreeExcept(buttons, m, i) && Bit(buttons, i) && !Bit(m, i)
    ensures var pressed := Translate(t, buttons, m, P1Keymap());
      && pressed.changed == (t.changed || 0 in t.state.keys)
      && Translate(pressed, m, buttons, P1Keymap()).state == t.state
  {
    KeymapsCompatible();
    ReleasedAbsent(t.state, m, P1Keymap(), other, P2Keymap(), i);
    RegularPressRelease(t, buttons, m, P1Keymap(), i);
  }

  /** The same round trip for a regular button of controller 2. */
  lemma P2PressRelease(t: Translation, m: bv8, other: bv8, buttons: bv8, i: nat)
    requires Reflects(t.state, m, P2Keymap(), other, P1Keymap())
    requires i < 8 && !IsModifier(P2Keymap()[i])
    requires AgreeExcept(buttons, m, i) && Bit(buttons, i) && !Bit(m, i)
    ensures var pressed := Translate(t, buttons, m, P2Keymap());
      && pressed.changed == (t.changed || 0 in t.state.keys)
      && Translate(pressed, m, buttons, P2Keymap()).state == t.state
  {
    KeymapsCompatible();
    ReleasedAbsent(t.state, m, P2Keymap(), other, P1Keymap(), i);
    RegularPressRelease(t, buttons, m, P2Keymap(), i);
  }

  /** The masks the last snapshot leaves behind, or (p1, p2) when there is none. */
  function Latest(events: seq<ButtonState>, p1: bv8, p2: bv8): (bv8, bv8) {
    if events == [] then (p1, p2) else (events[|events| - 1].p1, events[|events| - 1].p2)
  }

  /** Every snapshot's previous masks are the masks the one before it left, starting from (p1, p2). */
  ghost predicate Chained(events: seq<ButtonState>, p1: bv8, p2: bv8)
    decreases |events|
  {
    if events == [] then true
    else
      var n := |events| - 1;
      && Chained(events[..n], p1, p2)
      && (events[n].p1Old, events[n].p2Old) == Latest(events[..n], p1, p2)
  }

  /** The report after the translator has handled every snapshot in order. */
  function Replay(k: KeyState, events: seq<ButtonState>): (r: KeyState)
    ensures |r.keys| == |k.keys|
    decreases |events|
  {
    if events == [] then k
    else HandleEvent(Replay(k, events[..|events| - 1]), events[|events| - 1]).state
  }

  /** A chained stream of snapshots keeps the report in step with the latest masks. */
  lemma {:induction false} ReplayReflects(k: KeyState, events: seq<ButtonState>, p1: bv8, p2: bv8)
    requires Reflects(k, p1, P1Keymap(), p2, P2Keymap())
    requires Chained(events, p1, p2)
    ensures Reflects(Replay(k, events), Latest(events, p1, p2).0, P1Keymap(), Latest(events, p1, p2).1, P2Keymap())
    decreases |events|
  {
    if events != [] {
      var n := |events| - 1;
      ReplayReflects(k, events[..n], p1, p2);
      HandleEventReflects(Replay(k, events[..n]), events[n]);
    }
  }

  /** The poll machine emits a chained stream that ends at its own previous masks. */
  lemma {:induction false} RunChained(f: Fsm, high1: seq<bool>, high2: seq<bool>)
    requires f.state < CycleLength && |high1| == |high2|
    ensures var r := RunTicks(f, high1, high2);
      && Chained(r.events, f.btn.p1Old, f.btn.p2Old)
      && Latest(r.events, f.btn.p1Old, f.btn.p2Old) == (r.fsm.btn.p1Old, r.fsm.btn.p2Old)
    decreases |high1|
  {
    if high1 != [] {
      var n := |high1| - 1;
      RunChained(f, high1[..n], high2[..n]);
      var prev := RunTicks(f, high1[..n], high2[..n]);
      var o := TickSpec(prev.fsm, high1[n], high2[n]);
      TickChained(prev.events, prev.fsm, high1[n], high2[n], f.btn.p1Old, f.btn.p2Old);
      assert RunTicks(f, high1, high2) == Run(o.next, prev.edges + [o.edge], prev.events + if o.event.Some? then [o.event.value] else []);
    }
  }

  /** One tick keeps the stream chained and its end at the sequencer's previous masks. */
  lemma TickChained(events: seq<ButtonState>, f: Fsm, high1: bool, high2: bool, p1: bv8, p2: bv8)
    requires f.state < CycleLength
    requires Chained(events, p1, p2) && Latest(events, p1, p2) == (f.btn.p1Old, f.btn.p2Old)
    ensures var o := TickSpec(f, high1, high2);
      var events' := events + if o.event.Some? then [o.event.value] else [];
      Chained(events', p1, p2) && Latest(events', p1, p2) == (o.next.btn.p1Old, o.next.btn.p2Old)
  {
    var o := TickSpec(f, high1, high2);
    TickSpecFacts(f, high1, high2);
    if o.event.Some? {
      ChainExtend(events, p1, p2, o.event.value);
    } else {
      assert events + [] == events;
    }
  }

  /** Appending a snapshot that starts where the stream left off keeps it chained. */
  lemma ChainExtend(events: seq<ButtonState>, p1: bv8, p2: bv8, x: ButtonState)
    requires Chained(events, p1, p2) && (x.p1Old, x.p2Old) == Latest(events, p1, p2)
    ensures Chained(events + [x], p1, p2) && Latest(events + [x], p1, p2) == (x.p1, x.p2)
  {
    assert (events + [x])[..|events|] == events;
  }

  /**
   * No stuck keys: when every snapshot the poll machine produces from power-up
   * reaches the translator, the report reflects the masks of the most recent
   * completed poll cycle.
   */
  lemma NoDropsNoStuckKeys(high1: seq<bool>, high2: seq<bool>)
    requires |high1| == |high2|
    ensures var r := RunTicks(Fsm(0, ButtonState(0, 0, 0, 0)), high1, high2);
      Reflects(Replay(EmptyReport(), r.events), r.fsm.btn.p1Old, P1Keymap(), r.fsm.btn.p2Old, P2Keymap())
  {
    var f := Fsm(0, ButtonState(0, 0, 0, 0));
    RunChained(f, high1, high2);
    EmptyReflectsIdle();
    ReplayReflects(EmptyReport(), RunTicks(f, high1, high2).events, 0, 0);
  }
}

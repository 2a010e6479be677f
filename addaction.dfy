/**
 * What xhd_modes_add_action does, as values.
 *
 * The scan visits cells (group, keycode) group-major, keycode-minor, and in
 * each cell the levels 0 then 1. `action->mod` is mutated in place, so the
 * mask a cell sees is the original mask with the shift bit added iff some
 * earlier cell matched at level 1. Inside a cell, a match at level 0 while
 * the shift bit is already set registers at level 1 and ends the cell (the
 * loop index is forced to 1 and then incremented past the last level).
 */
module AddActionSpec {
  import opened XhdTypes
  import opened Registration

  /** The `symbol` fields of a keymap: sym[group][keycode][level]. */
  type SymTable = seq<seq<seq<Keysym>>>

  /** A table indexed [group][keycode][level] has the keymap's shape. */
  ghost predicate Shaped<T>(t: seq<seq<seq<T>>>) {
    |t| == MAX_GROUPS &&
    forall g :: 0 <= g < MAX_GROUPS ==>
      |t[g]| == MAX_KEYCODE &&
      forall k :: 0 <= k < MAX_KEYCODE ==> |t[g][k]| == MAX_LEVELS
  }

  /**
   * A scan position: a cell (g, k), the position (g, MAX_KEYCODE) after
   * the last cell of group g, or the end (MAX_GROUPS, 0).
   */
  predicate Position(g: nat, k: nat) {
    (g < MAX_GROUPS && k <= MAX_KEYCODE) || (g == MAX_GROUPS && k == 0)
  }

  /** (g, k) comes strictly before (g', k') in scan order. */
  predicate Earlier(g: nat, k: nat, g': nat, k': nat) {
    g < g' || (g == g' && k < k')
  }

  /** One registration: the level of the key it goes to and the mask at that moment. */
  datatype Reg = Reg(level: nat, mod: Modifier)

  /**
   * The registrations the level loop makes in one cell from level l on,
   * when the cell's level-0 and level-1 symbols are s0 and s1 and the
   * action's mask is mod. A level-0 match with the shift bit set goes to
   * level 1 and ends the cell; a level-1 match sets the shift bit first.
   */
  function LevelRegs(mod: Modifier, s0: Keysym, s1: Keysym, ks: Keysym, l: nat): seq<Reg>
    decreases MAX_LEVELS - l
  {
    if l >= MAX_LEVELS then []
    else if l == 0 then
      if s0 == ks then
        if mod & SHIFT == SHIFT then [Reg(1, mod)]
        else [Reg(0, mod)] + LevelRegs(mod, s0, s1, ks, 1)
      else LevelRegs(mod, s0, s1, ks, 1)
    else if s1 == ks then [Reg(1, mod | SHIFT)]
    else []
  }

  /** The action's mask once the level loop has run from level l on. */
  function LevelMod(mod: Modifier, s0: Keysym, s1: Keysym, ks: Keysym, l: nat): Modifier
    decreases MAX_LEVELS - l
  {
    if l >= MAX_LEVELS then mod
    else if l == 0 then
      if s0 == ks && mod & SHIFT == SHIFT then mod
      else LevelMod(mod, s0, s1, ks, 1)
    else if s1 == ks then mod | SHIFT
    else mod
  }

  /** The registrations add_action makes in one cell, entered with mask m. */
  function CellRegs(m: Modifier, s0: Keysym, s1: Keysym, ks: Keysym): seq<Reg>
  {
    LevelRegs(m, s0, s1, ks, 0)
  }

  /** A cell registers something exactly when one of its levels holds the keysym. */
  lemma {:induction false} CellRegsEmpty(m: Modifier, s0: Keysym, s1: Keysym, ks: Keysym)
    ensures CellRegs(m, s0, s1, ks) == [] <==> s0 != ks && s1 != ks
  {
  }

  /** Once the mask carries the shift bit, a cell registers only at level 1 and only with the bit set. */
  lemma {:induction false} ShiftedCellRegs(m: Modifier, s0: Keysym, s1: Keysym, ks: Keysym)
    requires m & SHIFT == SHIFT
    ensures forall r :: r in CellRegs(m, s0, s1, ks) ==> r.level == 1 && r.mod & SHIFT == SHIFT
  {
    OrShift(m);
  }

  /** What one cell registers, for every mask and every pair of level symbols. */
  lemma {:induction false} CellRegsShape(m: Modifier, s0: Keysym, s1: Keysym, ks: Keysym)
    ensures var r := CellRegs(m, s0, s1, ks);
      && |r| <= 2
      && (forall i :: 0 <= i < |r| ==> r[i].level <= 1)
      // the shift bit decides the target level, both ways
      && (forall i :: 0 <= i < |r| ==> (r[i].level == 1 <==> r[i].mod & SHIFT == SHIFT))
      // the mask only ever gains the shift bit
      && (forall i :: 0 <= i < |r| ==> r[i].mod == m || r[i].mod == m | SHIFT)
      // a level-1 match is registered at level 1 with the shift bit set
      && (s1 == ks ==> Reg(1, m | SHIFT) in r)
      // a level-0 match is registered first, with the unchanged mask
      && (s0 == ks ==> r[0] == Reg(if m & SHIFT == SHIFT then 1 else 0, m))
      // at most one registration per level
      && (|r| == 2 ==> r[0].level == 0 && r[1].level == 1)
  {
    OrShift(m);
  }

  /** One iteration of the level loop at level l < MAX_LEVELS, in terms of the rest of the loop. */
  lemma {:induction false} LevelStep(mod: Modifier, s0: Keysym, s1: Keysym, ks: Keysym, l: nat)
    requires l < MAX_LEVELS
    ensures (if l == 0 then s0 else s1) != ks ==>
              LevelRegs(mod, s0, s1, ks, l) == LevelRegs(mod, s0, s1, ks, l + 1) &&
              LevelMod(mod, s0, s1, ks, l) == LevelMod(mod, s0, s1, ks, l + 1)
    ensures (if l == 0 then s0 else s1) == ks ==>
              var mod' := if l != 0 then mod | SHIFT else mod;
              var l' := if mod' & SHIFT == SHIFT then 1 else l;
              LevelRegs(mod, s0, s1, ks, l) == [Reg(l', mod')] + LevelRegs(mod', s0, s1, ks, l' + 1) &&
              LevelMod(mod, s0, s1, ks, l) == LevelMod(mod', s0, s1, ks, l' + 1)
  {
    OrShift(mod);
  }

  /** Grab entries of concatenated registrations concatenate. */
  lemma {:induction false} CellGrabsAppend(k: nat, regs: seq<Reg>, more: seq<Reg>)
    ensures CellGrabs(k, regs + more) == CellGrabs(k, regs) + CellGrabs(k, more)
    decreases |regs|
  {
    if regs == [] {
      assert [] + more == more;
    } else {
      assert (regs + more)[1..] == regs[1..] + more;
      CellGrabsAppend(k, regs[1..], more);
    }
  }

  /** The mask after one cell: the shift bit is added exactly when level 1 matches. */
  function CellMod(m: Modifier, s0: Keysym, s1: Keysym, ks: Keysym): (r: Modifier)
    ensures r == if s1 == ks then m | SHIFT else m
  {
    assert m & SHIFT == SHIFT ==> m | SHIFT == m;
    LevelMod(m, s0, s1, ks, 0)
  }

  /**
   * True iff some cell strictly before (g, k) in scan order holds ks at
   * level 1. (g, MAX_KEYCODE) is the position after the last cell of g.
   */
  ghost predicate HitBefore(sym: SymTable, ks: Keysym, g: nat, k: nat)
    requires Shaped(sym)
    requires Position(g, k)
    // sym is part of the measure so that a literal position alone does not
    // unfold the whole scan
    decreases g, k, sym
  {
    if k > 0 then HitBefore(sym, ks, g, k - 1) || sym[g][k - 1][1] == ks
    else if g > 0 then HitBefore(sym, ks, g - 1, MAX_KEYCODE)
    else false
  }

  /** The mask the scan carries on reaching (g, k), starting from m0. */
  ghost function ModAt(sym: SymTable, ks: Keysym, m0: Modifier, g: nat, k: nat): Modifier
    requires Shaped(sym)
    requires Position(g, k)
  {
    if HitBefore(sym, ks, g, k) then m0 | SHIFT else m0
  }

  /** The mask after cell (g, k) is the mask the cell's level loop leaves. */
  lemma {:induction false} ModAtStep(sym: SymTable, ks: Keysym, m0: Modifier, g: nat, k: nat)
    requires Shaped(sym) && g < MAX_GROUPS && k < MAX_KEYCODE
    ensures ModAt(sym, ks, m0, g, k + 1) == CellMod(ModAt(sym, ks, m0, g, k), sym[g][k][0], sym[g][k][1], ks)
  {
    assert HitBefore(sym, ks, g, k + 1) == (HitBefore(sym, ks, g, k) || sym[g][k][1] == ks);
    OrShiftTwice(m0);
  }

  /** The registrations made in cell (g, k). */
  ghost function RegsAt(sym: SymTable, ks: Keysym, m0: Modifier, g: nat, k: nat): seq<Reg>
    requires Shaped(sym) && g < MAX_GROUPS && k < MAX_KEYCODE
  {
    CellRegs(ModAt(sym, ks, m0, g, k), sym[g][k][0], sym[g][k][1], ks)
  }

  /** The grab entries a cell's registrations append to its group's list. */
  function CellGrabs(k: nat, regs: seq<Reg>): seq<Grab>
    decreases |regs|
  {
    if regs == [] then [] else [Grab(k, regs[0].mod)] + CellGrabs(k, regs[1..])
  }

  /** One grab entry per registration, in order, each carrying the cell's keycode and the registration's mask. */
  lemma {:induction false} CellGrabsEntries(k: nat, regs: seq<Reg>)
    ensures |CellGrabs(k, regs)| == |regs|
    ensures forall i :: 0 <= i < |regs| ==> CellGrabs(k, regs)[i] == Grab(k, regs[i].mod)
    decreases |regs|
  {
    if regs != [] {
      CellGrabsEntries(k, regs[1..]);
    }
  }

  /** What add_action appends to group g's grab list from its first n keycodes. */
  ghost function GroupGrabs(sym: SymTable, ks: Keysym, m0: Modifier, g: nat, n: nat): seq<Grab>
    requires Shaped(sym) && g < MAX_GROUPS && n <= MAX_KEYCODE
    // sym is part of the measure for the same reason as in HitBefore
    decreases n, sym
  {
    if n == 0 then []
    else GroupGrabs(sym, ks, m0, g, n - 1) + CellGrabs(n - 1, RegsAt(sym, ks, m0, g, n - 1))
  }

  /** The key at level l of a cell after the cell's registrations, every allocation succeeding. */
  function SlotAfter(key: Key, regs: seq<Reg>, l: nat, cmds: seq<string>): (r: Key)
    requires key.Valid()
    ensures r.Valid() && r.symbol == key.symbol
    decreases |regs|
  {
    if regs == [] then key
    else
      var next := if regs[0].level == l then RegisterAction(key, Action(regs[0].mod, cmds), true).0 else key;
      SlotAfter(next, regs[1..], l, cmds)
  }

  /**
   * The whole keymap after add_action, as a value: every slot of the
   * keymap `slots` (symbol table `sym`) after its cell's registrations,
   * the scan starting from mask m0.
   */
  ghost function ScanResult(slots: seq<seq<seq<KeySlot>>>, sym: SymTable, ks: Keysym, m0: Modifier, cmds: seq<string>)
    : (r: seq<seq<seq<Key>>>)
    requires Shaped(slots) && Shaped(sym)
    ensures Shaped(r)
    ensures forall g, k, l :: 0 <= g < MAX_GROUPS && 0 <= k < MAX_KEYCODE && 0 <= l < MAX_LEVELS ==>
              r[g][k][l] == SlotAfter(slots[g][k][l], RegsAt(sym, ks, m0, g, k), l, cmds)
  {
    seq(MAX_GROUPS, g requires 0 <= g < MAX_GROUPS =>
      seq(MAX_KEYCODE, k requires 0 <= k < MAX_KEYCODE && 0 <= g < MAX_GROUPS =>
        seq(MAX_LEVELS, l requires 0 <= l < MAX_LEVELS && 0 <= k < MAX_KEYCODE && 0 <= g < MAX_GROUPS =>
          SlotAfter(slots[g][k][l], RegsAt(sym, ks, m0, g, k), l, cmds))))
  }

  /** Registering two runs of registrations one after the other. */
  lemma {:induction false} SlotAfterAppend(key: Key, regs: seq<Reg>, more: seq<Reg>, l: nat, cmds: seq<string>)
    requires key.Valid()
    ensures SlotAfter(key, regs + more, l, cmds) == SlotAfter(SlotAfter(key, regs, l, cmds), more, l, cmds)
    decreases |regs|
  {
    if regs == [] {
      assert [] + more == more;
    } else {
      var next := if regs[0].level == l then RegisterAction(key, Action(regs[0].mod, cmds), true).0 else key;
      assert (regs + more)[1..] == regs[1..] + more;
      SlotAfterAppend(next, regs[1..], more, l, cmds);
    }
  }

  /**
   * HitBefore means what it says: some lexicographically earlier cell has
   * the keysym at level 1.
   */
  lemma {:induction false} HitBeforeExists(sym: SymTable, ks: Keysym, g: nat, k: nat)
    requires Shaped(sym)
    requires Position(g, k)
    ensures HitBefore(sym, ks, g, k) <==>
            exists g', k' :: 0 <= g' < MAX_GROUPS && 0 <= k' < MAX_KEYCODE &&
                             Earlier(g', k', g, k) && sym[g'][k'][1] == ks
    decreases g, k
  {
    if k > 0 {
      HitBeforeExists(sym, ks, g, k - 1);
      if sym[g][k - 1][1] == ks {
        assert 0 <= g < MAX_GROUPS && Earlier(g, k - 1, g, k) && sym[g][k - 1][1] == ks;
      }
    } else if g > 0 {
      HitBeforeExists(sym, ks, g - 1, MAX_KEYCODE);
    }
  }

  /**
   * The OR into the shared mask persists: once a cell sees the shift bit,
   * every later cell sees it too, and every registration there carries it.
   */
  lemma {:induction false} ShiftPersists(sym: SymTable, ks: Keysym, m0: Modifier, g: nat, k: nat, g': nat, k': nat)
    requires Shaped(sym)
    requires g < MAX_GROUPS && k <= MAX_KEYCODE
    requires Position(g', k')
    requires Earlier(g, k, g', k') || (g == g' && k == k')
    requires ModAt(sym, ks, m0, g, k) & SHIFT == SHIFT
    ensures ModAt(sym, ks, m0, g', k') & SHIFT == SHIFT
    ensures g' < MAX_GROUPS && k' < MAX_KEYCODE ==>
              forall r :: r in RegsAt(sym, ks, m0, g', k') ==> r.level == 1 && r.mod & SHIFT == SHIFT
  {
    OrShift(m0);
    if m0 & SHIFT != SHIFT {
      HitBeforeMonotone(sym, ks, g, k, g', k');
    }
    var m := ModAt(sym, ks, m0, g', k');
    if g' < MAX_GROUPS && k' < MAX_KEYCODE {
      ShiftedCellRegs(m, sym[g'][k'][0], sym[g'][k'][1], ks);
    }
  }

  /** A level-1 hit before a position is a hit before every later position. */
  lemma {:induction false} HitBeforeMonotone(sym: SymTable, ks: Keysym, g: nat, k: nat, g': nat, k': nat)
    requires Shaped(sym)
    requires g < MAX_GROUPS && k <= MAX_KEYCODE
    requires Position(g', k')
    requires Earlier(g, k, g', k') || (g == g' && k == k')
    requires HitBefore(sym, ks, g, k)
    ensures HitBefore(sym, ks, g', k')
    decreases g', k'
  {
    if g == g' && k == k' {
    } else if k' > 0 {
      HitBeforeMonotone(sym, ks, g, k, g', k' - 1);
    } else {
      HitBeforeMonotone(sym, ks, g, k, g' - 1, MAX_KEYCODE);
    }
  }

  /**
   * After the whole scan the action's mask has the shift bit iff it had it
   * already or the keysym appears at level 1 somewhere in the keymap.
   */
  lemma {:induction false} FinalMask(sym: SymTable, ks: Keysym, m0: Modifier)
    requires Shaped(sym)
    ensures ModAt(sym, ks, m0, MAX_GROUPS, 0) & SHIFT == SHIFT <==>
            (m0 & SHIFT == SHIFT ||
             exists g, k :: 0 <= g < MAX_GROUPS && 0 <= k < MAX_KEYCODE && sym[g][k][1] == ks)
    ensures ModAt(sym, ks, m0, MAX_GROUPS, 0) in {m0, m0 | SHIFT}
  {
    HitBeforeExists(sym, ks, MAX_GROUPS, 0);
    var final := ModAt(sym, ks, m0, MAX_GROUPS, 0);
    OrShift(m0);
    if HitBefore(sym, ks, MAX_GROUPS, 0) {
      assert final == m0 | SHIFT;
    } else {
      assert final == m0;
      forall g, k | 0 <= g < MAX_GROUPS && 0 <= k < MAX_KEYCODE
        ensures sym[g][k][1] != ks
      {
        assert Earlier(g, k, MAX_GROUPS, 0);
      }
    }
  }

  /** Setting the shift bit sets it. */
  lemma {:induction false} OrShift(m: Modifier)
    ensures (m | SHIFT) & SHIFT == SHIFT
  {
  }

  lemma {:induction false} OrShiftTwice(m: Modifier)
    ensures (m | SHIFT) | SHIFT == m | SHIFT
  {
  }

  /**
   * Group isolation: a group none of whose slots holds the keysym gets no
   * grab entries, and none of its cells registers anything.
   */
  lemma {:induction false} GroupIsolation(sym: SymTable, ks: Keysym, m0: Modifier, g: nat, n: nat)
    requires Shaped(sym) && g < MAX_GROUPS && n <= MAX_KEYCODE
    requires forall k, l :: 0 <= k < n && 0 <= l < MAX_LEVELS ==> sym[g][k][l] != ks
    ensures GroupGrabs(sym, ks, m0, g, n) == []
    ensures forall k :: 0 <= k < n ==> RegsAt(sym, ks, m0, g, k) == []
    decreases n
  {
    if n > 0 {
      GroupIsolation(sym, ks, m0, g, n - 1);
      assert sym[g][n - 1][0] != ks && sym[g][n - 1][1] != ks;
      CellRegsEmpty(ModAt(sym, ks, m0, g, n - 1), sym[g][n - 1][0], sym[g][n - 1][1], ks);
    }
  }

  /**
   * The grab list of group g grows by exactly one entry per registration,
   * each carrying the keycode of its cell: every keycode in it holds the
   * keysym in group g ...
   */
  lemma {:induction false} GroupGrabsOnlyHits(sym: SymTable, ks: Keysym, m0: Modifier, g: nat, n: nat)
    requires Shaped(sym) && g < MAX_GROUPS && n <= MAX_KEYCODE
    ensures forall e :: e in GroupGrabs(sym, ks, m0, g, n) ==>
              e.keycode < n && (sym[g][e.keycode][0] == ks || sym[g][e.keycode][1] == ks)
    decreases n
  {
    if n > 0 {
      GroupGrabsOnlyHits(sym, ks, m0, g, n - 1);
      var prev := GroupGrabs(sym, ks, m0, g, n - 1);
      var regs := RegsAt(sym, ks, m0, g, n - 1);
      var cell := CellGrabs(n - 1, regs);
      CellGrabsEntries(n - 1, regs);
      assert GroupGrabs(sym, ks, m0, g, n) == prev + cell;
      forall e: Grab | e in prev + cell
        ensures e.keycode < n && (sym[g][e.keycode][0] == ks || sym[g][e.keycode][1] == ks)
      {
        if e !in prev {
          var i :| 0 <= i < |cell| && cell[i] == e;
          assert e.keycode == n - 1;
          CellRegsEmpty(ModAt(sym, ks, m0, g, n - 1), sym[g][n - 1][0], sym[g][n - 1][1], ks);
        }
      }
    }
  }

  /** ... and every keycode below n whose cell holds ks in group g has a grab in that list. */
  lemma {:induction false} GroupGrabsCoverHits(sym: SymTable, ks: Keysym, m0: Modifier, g: nat, n: nat)
    requires Shaped(sym) && g < MAX_GROUPS && n <= MAX_KEYCODE
    ensures forall k :: 0 <= k < n && (sym[g][k][0] == ks || sym[g][k][1] == ks) ==>
              exists e :: e in GroupGrabs(sym, ks, m0, g, n) && e.keycode == k
    decreases n
  {
    if n > 0 {
      GroupGrabsCoverHits(sym, ks, m0, g, n - 1);
      var prev := GroupGrabs(sym, ks, m0, g, n - 1);
      var regs := RegsAt(sym, ks, m0, g, n - 1);
      var cell := CellGrabs(n - 1, regs);
      CellRegsEmpty(ModAt(sym, ks, m0, g, n - 1), sym[g][n - 1][0], sym[g][n - 1][1], ks);
      CellGrabsEntries(n - 1, regs);
      assert GroupGrabs(sym, ks, m0, g, n) == prev + cell;
      forall k | 0 <= k < n && (sym[g][k][0] == ks || sym[g][k][1] == ks)
        ensures exists e: Grab :: e in prev + cell && e.keycode == k
      {
        if k == n - 1 {
          assert regs != [];
          assert cell[0] in prev + cell;
        } else {
          var e :| e in prev && e.keycode == k;
          assert e in prev + cell;
        }
      }
    }
  }

  /**
   * The shift-inference property: a keysym that a cell defines only at
   * level 1 is registered there once, at level 1, with the shift bit set,
   * whatever the mask was, and its group's list gets (keycode, mask|shift).
   */
  lemma {:induction false} ShiftedOnlyGoesToLevelOne(m: Modifier, s0: Keysym, s1: Keysym, ks: Keysym, k: nat)
    requires s0 != ks && s1 == ks
    ensures CellRegs(m, s0, s1, ks) == [Reg(1, m | SHIFT)]
    ensures CellGrabs(k, CellRegs(m, s0, s1, ks)) == [Grab(k, m | SHIFT)]
    ensures (m | SHIFT) & SHIFT == SHIFT
  {
  }

  /** Only the levels named by a cell's registrations change; a slot with none is untouched. */
  lemma {:induction false} SlotUntouched(key: Key, regs: seq<Reg>, l: nat, cmds: seq<string>)
    requires key.Valid()
    requires forall i :: 0 <= i < |regs| ==> regs[i].level != l
    ensures SlotAfter(key, regs, l, cmds) == key
    decreases |regs|
  {
    if regs != [] {
      SlotUntouched(key, regs[1..], l, cmds);
    }
  }

  /**
   * With room in the key's buffer, the slot ends up with one action per
   * registration at its level, carrying that registration's mask.
   */
  lemma {:induction false} SlotStoresRegs(key: Key, regs: seq<Reg>, l: nat, cmds: seq<string>)
    requires key.Valid() && key.numActs + |regs| <= key.allocActs
    ensures SlotAfter(key, regs, l, cmds).Actions() == key.Actions() + ActionsAt(regs, l, cmds)
    decreases |regs|
  {
    if regs != [] {
      var next := if regs[0].level == l then RegisterAction(key, Action(regs[0].mod, cmds), true).0 else key;
      SlotStoresRegs(next, regs[1..], l, cmds);
    }
  }

  /** The actions that registrations at level l produce, in order. */
  function ActionsAt(regs: seq<Reg>, l: nat, cmds: seq<string>): (r: seq<Action>)
    ensures |r| <= |regs|
    ensures forall a :: a in r ==> a.cmds == cmds
    decreases |regs|
  {
    if regs == [] then []
    else (if regs[0].level == l then [Action(regs[0].mod, cmds)] else []) + ActionsAt(regs[1..], l, cmds)
  }
}

/**
 * Modes and the mode list (xhd_modes.h): a mode owns a keymap of Key slots
 * [group][keycode][level] and one grab list per group; the mode list is a
 * counted, growable sequence of modes.
 */
module XhdModes {
  import opened XhdTypes
  import opened Registration
  import opened AddActionSpec

  /**
   * What the xkb library answers about the core keyboard's keymap: the
   * number of layouts of a key, the number of levels of a key in a layout,
   * and the symbol at (keycode, group, level) if there is one.
   */
  datatype XkbLayout = XkbLayout(
    numLayouts: nat -> nat,
    numLevels: (nat, nat) -> nat,
    symAt: (nat, nat, nat) -> Option<Keysym>)

  /** The outcome of asking xkb for the core keyboard and its keymap. */
  datatype XkbSource = NoCoreDevice | NoKeymap | Loaded(layout: XkbLayout)

  /** Number of groups keymap_init fills for a key: the layout count taken modulo MAX_GROUPS. */
  function GroupsFilled(lay: XkbLayout, k: nat): (n: nat)
    ensures n < MAX_GROUPS
    ensures lay.numLayouts(k) < MAX_GROUPS ==> n == lay.numLayouts(k)
    ensures lay.numLayouts(k) == MAX_GROUPS ==> n == 0
  {
    lay.numLayouts(k) % MAX_GROUPS
  }

  /** Number of levels keymap_init fills for a key in a group: capped at MAX_LEVELS. */
  function LevelsFilled(lay: XkbLayout, k: nat, g: nat): (n: nat)
    ensures n <= MAX_LEVELS && n <= lay.numLevels(k, g)
    ensures n == MAX_LEVELS || n == lay.numLevels(k, g)
  {
    if lay.numLevels(k, g) >= MAX_LEVELS then MAX_LEVELS else lay.numLevels(k, g)
  }

  /** The symbol slot (g, k, l) holds after keymap_init, given what it held before. */
  function InitSymbol(lay: XkbLayout, g: nat, k: nat, l: nat, prior: Keysym): (s: Keysym)
    ensures s != prior ==> g < GroupsFilled(lay, k) && l < LevelsFilled(lay, k, g)
                           && lay.symAt(k, g, l) == Some(s)
    ensures (g < GroupsFilled(lay, k) && l < LevelsFilled(lay, k, g) && lay.symAt(k, g, l).Some?)
            ==> s == lay.symAt(k, g, l).value
  {
    if g < GroupsFilled(lay, k) && l < LevelsFilled(lay, k, g) && lay.symAt(k, g, l).Some?
    then lay.symAt(k, g, l).value
    else prior
  }

  /** The key slot (g, k, l) holds after keymap_init, given what it held before: only the symbol may change. */
  function InitKey(xkb: XkbSource, g: nat, k: nat, l: nat, prior: KeySlot): (key: KeySlot)
    ensures key.numActs == prior.numActs && key.allocActs == prior.allocActs && key.acts == prior.acts
    ensures !xkb.Loaded? ==> key == prior
  {
    if xkb.Loaded? then prior.(symbol := InitSymbol(xkb.layout, g, k, l, prior.symbol)) else prior
  }

  lemma {:induction false} AppendAssoc<T>(a: seq<T>, b: seq<T>, c: seq<T>)
    ensures (a + b) + c == a + (b + c)
  {
  }

  /** A zeroed keymap of shape group x keycode x level, as calloc leaves it. */
  method NewKeymap() returns (km: array3<KeySlot>)
    ensures fresh(km)
    ensures km.Length0 == MAX_GROUPS && km.Length1 == MAX_KEYCODE && km.Length2 == MAX_LEVELS
    ensures forall g, k, l :: 0 <= g < MAX_GROUPS && 0 <= k < MAX_KEYCODE && 0 <= l < MAX_LEVELS ==>
              km[g, k, l] == EmptyKey
  {
    km := new KeySlot[MAX_GROUPS, MAX_KEYCODE, MAX_LEVELS]((g, k, l) => EmptyKey);
  }

  /** The per-group grab lists of a fresh mode: distinct, empty, capacity GRAB_LIST_SIZE. */
  method NewGrabLists() returns (gs: array<GrabList>, ghost lists: set<object>)
    ensures fresh(gs) && gs.Length == MAX_GROUPS && fresh(lists)
    ensures forall g :: 0 <= g < MAX_GROUPS ==>
              gs[g] in lists && gs[g].list in lists && gs[g].Valid() &&
              gs[g].Contents() == [] && gs[g].alloc == GRAB_LIST_SIZE
    ensures forall g, h :: 0 <= g < h < MAX_GROUPS ==> gs[g] != gs[h] && gs[g].list != gs[h].list
  {
    var made: seq<GrabList> := [];
    lists := {};
    while |made| < MAX_GROUPS
      invariant |made| <= MAX_GROUPS && fresh(lists)
      invariant forall g :: 0 <= g < |made| ==>
                  made[g] in lists && made[g].list in lists && made[g].Valid() &&
                  made[g].Contents() == [] && made[g].alloc == GRAB_LIST_SIZE
      invariant forall g, h :: 0 <= g < h < |made| ==> made[g] != made[h] && made[g].list != made[h].list
    {
      var gl := new GrabList();
      made := made + [gl];
      lists := lists + {gl, gl.list};
    }
    gs := new GrabList[MAX_GROUPS](g requires 0 <= g < MAX_GROUPS => made[g]);
  }


  /**
   * One pass of add_action's level loop at level l of the cell with keycode k, whose
   * keys are `cell` (keymap[g][k], one Key per level), entered with mask
   * `mod`. On a match a level above 0 ORs the shift bit into the mask, the
   * shift bit forces the level index to 1, a copy of the action is
   * registered with the key at that index and (k, mask) is appended to
   * the group's grab list gl, every allocation succeeding (add_action ignores
   * both return codes). Returns the level index and mask the pass leaves,
   * the cell's keys, and (as a ghost) the registration made, if any.
   */
  method ScanLevel(gl: GrabList, k: nat, l: nat, ks: Keysym, mod: Modifier, cmds: seq<string>, cell: seq<KeySlot>)
    returns (l': nat, mod': Modifier, cell': seq<KeySlot>, ghost hit: seq<Reg>)
    requires gl.Valid()
    requires l < MAX_LEVELS && |cell| == MAX_LEVELS
    modifies gl, gl.list
    ensures gl.Valid()
    ensures gl.list == old(gl.list) || fresh(gl.list)
    ensures l <= l' < MAX_LEVELS && |cell'| == MAX_LEVELS
    ensures cell'[0].symbol == cell[0].symbol && cell'[1].symbol == cell[1].symbol
    ensures hit + LevelRegs(mod', cell[0].symbol, cell[1].symbol, ks, l' + 1) ==
            LevelRegs(mod, cell[0].symbol, cell[1].symbol, ks, l)
    ensures LevelMod(mod', cell[0].symbol, cell[1].symbol, ks, l' + 1) ==
            LevelMod(mod, cell[0].symbol, cell[1].symbol, ks, l)
    ensures forall l0 {:trigger cell'[l0]} :: 0 <= l0 < MAX_LEVELS ==> cell'[l0] == SlotAfter(cell[l0], hit, l0, cmds)
    ensures gl.Contents() == old(gl.Contents()) + CellGrabs(k, hit)
  {
    LevelStep(mod, cell[0].symbol, cell[1].symbol, ks, l);
    l', mod', cell', hit := l, mod, cell, [];
    if ks == cell[l].symbol {
      if l != 0 {
        mod' := mod' | SHIFT;
      }
      if mod' & SHIFT == SHIFT {
        l' := 1;
      }
      cell' := cell[l' := RegisterAction(cell[l'], Action(mod', cmds), true).0];
      var _ := gl.RegisterGrab(k, mod', true);
      hit := [Reg(l', mod')];
    }
  }

  /** How one pass of the level loop extends what the cell has registered so far. */
  lemma {:induction false} LevelProgress(k: nat, cmds: seq<string>, orig: seq<KeySlot>, cur: seq<KeySlot>, next: seq<KeySlot>,
                      done: seq<Reg>, hit: seq<Reg>, restBefore: seq<Reg>, restAfter: seq<Reg>, whole: seq<Reg>,
                      start: seq<Grab>, grabs: seq<Grab>)
    requires |orig| == |cur| == |next| == MAX_LEVELS
    requires done + restBefore == whole && hit + restAfter == restBefore
    requires forall l :: 0 <= l < MAX_LEVELS ==> cur[l] == SlotAfter(orig[l], done, l, cmds)
    requires forall l :: 0 <= l < MAX_LEVELS ==> next[l] == SlotAfter(cur[l], hit, l, cmds)
    requires grabs == (start + CellGrabs(k, done)) + CellGrabs(k, hit)
    ensures (done + hit) + restAfter == whole
    ensures forall l :: 0 <= l < MAX_LEVELS ==> next[l] == SlotAfter(orig[l], done + hit, l, cmds)
    ensures grabs == start + CellGrabs(k, done + hit)
  {
    AppendAssoc(done, hit, restAfter);
    CellGrabsAppend(k, done, hit);
    AppendAssoc(start, CellGrabs(k, done), CellGrabs(k, hit));
    forall l | 0 <= l < MAX_LEVELS
      ensures next[l] == SlotAfter(orig[l], done + hit, l, cmds)
    {
      SlotAfterAppend(orig[l], done, hit, l, cmds);
    }
  }

  /**
   * One pass of the level loop of cell k in terms of the loop's progress:
   * the cell's keys `cur` hold the registrations `done` made so far on top
   * of `orig`, the grab list holds `start` and their grab entries, and
   * `done` followed by what the loop will still register is `whole`.
   */
  method LevelPass(gl: GrabList, k: nat, l: nat, ks: Keysym, mod: Modifier, cmds: seq<string>,
                   orig: seq<KeySlot>, cur: seq<KeySlot>, ghost done: seq<Reg>, ghost whole: seq<Reg>, ghost start: seq<Grab>)
    returns (l': nat, mod': Modifier, next: seq<KeySlot>, ghost done': seq<Reg>)
    requires gl.Valid()
    requires l < MAX_LEVELS && |orig| == |cur| == MAX_LEVELS
    requires cur[0].symbol == orig[0].symbol && cur[1].symbol == orig[1].symbol
    requires done + LevelRegs(mod, orig[0].symbol, orig[1].symbol, ks, l) == whole
    requires forall l0 {:trigger cur[l0]} :: 0 <= l0 < MAX_LEVELS ==> cur[l0] == SlotAfter(orig[l0], done, l0, cmds)
    requires gl.Contents() == start + CellGrabs(k, done)
    modifies gl, gl.list
    ensures gl.Valid()
    ensures gl.list == old(gl.list) || fresh(gl.list)
    ensures l <= l' < MAX_LEVELS && |next| == MAX_LEVELS
    ensures next[0].symbol == orig[0].symbol && next[1].symbol == orig[1].symbol
    ensures done' + LevelRegs(mod', orig[0].symbol, orig[1].symbol, ks, l' + 1) == whole
    ensures LevelMod(mod', orig[0].symbol, orig[1].symbol, ks, l' + 1) == LevelMod(mod, orig[0].symbol, orig[1].symbol, ks, l)
    ensures forall l0 {:trigger next[l0]} :: 0 <= l0 < MAX_LEVELS ==> next[l0] == SlotAfter(orig[l0], done', l0, cmds)
    ensures gl.Contents() == start + CellGrabs(k, done')
  {
    var s0, s1 := orig[0].symbol, orig[1].symbol;
    ghost var hit: seq<Reg>;
    ghost var restBefore := LevelRegs(mod, s0, s1, ks, l);
    l', mod', next, hit := ScanLevel(gl, k, l, ks, mod, cmds, cur);
    LevelProgress(k, cmds, orig, cur, next, done, hit, restBefore, LevelRegs(mod', s0, s1, ks, l' + 1),
                  whole, start, gl.Contents());
    done' := done + hit;
  }

  /**
   * One cell (keycode k) of xhd_modes_add_action's scan: the level loop over the
   * cell's keys, entered with the action's mask `mod`, returning the mask
   * it leaves and the cell's keys. Each match stores Action(mask, cmds) in
   * the target key and appends (k, mask) to the group's grab list gl.
   */
  method ScanCell(gl: GrabList, k: nat, ks: Keysym, mod: Modifier, cmds: seq<string>, cell: seq<KeySlot>)
    returns (mod': Modifier, cell': seq<KeySlot>)
    requires gl.Valid()
    requires |cell| == MAX_LEVELS
    modifies gl, gl.list
    ensures gl.Valid()
    ensures gl.list == old(gl.list) || fresh(gl.list)
    ensures mod' == CellMod(mod, cell[0].symbol, cell[1].symbol, ks)
    ensures |cell'| == MAX_LEVELS
    ensures forall l {:trigger cell'[l]} :: 0 <= l < MAX_LEVELS ==>
              cell'[l] == SlotAfter(cell[l], CellRegs(mod, cell[0].symbol, cell[1].symbol, ks), l, cmds)
    ensures gl.Contents() ==
              old(gl.Contents()) + CellGrabs(k, CellRegs(mod, cell[0].symbol, cell[1].symbol, ks))
  {
    var s0, s1 := cell[0].symbol, cell[1].symbol;
    ghost var start := gl.Contents();
    ghost var whole, last := CellRegs(mod, s0, s1, ks), CellMod(mod, s0, s1, ks);
    ghost var done: seq<Reg> := [];
    mod', cell' := mod, cell;
    var l := 0;
    while l < MAX_LEVELS
      invariant 0 <= l <= MAX_LEVELS && |cell'| == MAX_LEVELS
      invariant gl.Valid()
      invariant gl.list == old(gl.list) || fresh(gl.list)
      invariant cell'[0].symbol == s0 && cell'[1].symbol == s1
      invariant done + LevelRegs(mod', s0, s1, ks, l) == whole
      invariant LevelMod(mod', s0, s1, ks, l) == last
      invariant forall l0 {:trigger cell'[l0]} :: 0 <= l0 < MAX_LEVELS ==> cell'[l0] == SlotAfter(cell[l0], done, l0, cmds)
      invariant gl.Contents() == start + CellGrabs(k, done)
    {
      l, mod', cell', done := LevelPass(gl, k, l, ks, mod', cmds, cell, cell', done, whole, start);
      l := l + 1;
    }
    assert LevelRegs(mod', s0, s1, ks, l) == [];
    assert done == whole;
  }

  /** xhd_mode_t, with the `name` field that xhd_modes.h writes. */
  class Mode {
    var name: string
    var grabs: array<GrabList>
    var keymap: array3<KeySlot>
    var curGroup: nat
    ghost var Repr: set<object>

    /** The keymap has the shape group x keycode x level. */
    ghost predicate Shaped()
      reads this
    {
      keymap.Length0 == MAX_GROUPS && keymap.Length1 == MAX_KEYCODE && keymap.Length2 == MAX_LEVELS
    }

    ghost predicate Valid()
      reads this, Repr
    {
      this in Repr && grabs in Repr && keymap in Repr &&
      Shaped() && grabs.Length == MAX_GROUPS &&
      (forall g :: 0 <= g < MAX_GROUPS ==>
         grabs[g] in Repr && grabs[g].list in Repr && grabs[g].Valid()) &&
      (forall g, h :: 0 <= g < h < MAX_GROUPS ==>
         grabs[g] != grabs[h] && grabs[g].list != grabs[h].list)
    }

    /** The symbol table of the keymap, as a value. */
    ghost function Symbols(): (sym: SymTable)
      reads this, keymap
      requires Shaped()
      ensures AddActionSpec.Shaped(sym)
      ensures forall g, k, l :: 0 <= g < MAX_GROUPS && 0 <= k < MAX_KEYCODE && 0 <= l < MAX_LEVELS ==>
                sym[g][k][l] == keymap[g, k, l].symbol
    {
      seq(MAX_GROUPS, g requires 0 <= g < MAX_GROUPS && Shaped() reads this, keymap =>
        seq(MAX_KEYCODE, k requires 0 <= k < MAX_KEYCODE && 0 <= g < MAX_GROUPS && Shaped() reads this, keymap =>
          seq(MAX_LEVELS, l requires 0 <= l < MAX_LEVELS && 0 <= k < MAX_KEYCODE && 0 <= g < MAX_GROUPS && Shaped()
                            reads this, keymap =>
            keymap[g, k, l].symbol)))
    }

    /**
     * A fresh mode as xhd_modes_alloc_mode leaves it: no name, empty grab
     * lists of capacity GRAB_LIST_SIZE, a zeroed keymap, group 0.
     */
    constructor ()
      ensures Valid() && fresh(Repr)
      ensures name == "" && curGroup == 0
      ensures forall g :: 0 <= g < MAX_GROUPS ==> grabs[g].Contents() == [] && grabs[g].alloc == GRAB_LIST_SIZE
      ensures forall g, k, l :: 0 <= g < MAX_GROUPS && 0 <= k < MAX_KEYCODE && 0 <= l < MAX_LEVELS ==>
                keymap[g, k, l] == EmptyKey
    {
      name := "";
      curGroup := 0;
      var km := NewKeymap();
      var gs, lists := NewGrabLists();
      grabs := gs;
      keymap := km;
      Repr := {this, gs, km} + lists;
    }

    /**
     * xhd_modes_keymap_init: for every keycode, for groups below the
     * layout count modulo MAX_GROUPS and levels below min(levels,
     * MAX_LEVELS), store the symbol xkb reports, if any. Nothing else in
     * the keymap changes. -1 without a core keyboard, -2 without a keymap.
     */
    method KeymapInit(xkb: XkbSource) returns (ret: int)
      requires Shaped()
      modifies keymap
      ensures ret == (match xkb case NoCoreDevice => -1 case NoKeymap => -2 case Loaded(_) => 0)
      ensures forall g, k, l :: 0 <= g < MAX_GROUPS && 0 <= k < MAX_KEYCODE && 0 <= l < MAX_LEVELS ==>
                keymap[g, k, l] == InitKey(xkb, g, k, l, old(keymap[g, k, l]))
    {
      if xkb.NoCoreDevice? {
        return -1;
      }
      if xkb.NoKeymap? {
        return -2;
      }
      var lay := xkb.layout;
      var k := 0;
      while k < MAX_KEYCODE
        invariant 0 <= k <= MAX_KEYCODE
        invariant forall g', k', l' :: 0 <= g' < MAX_GROUPS && 0 <= k' < MAX_KEYCODE && 0 <= l' < MAX_LEVELS ==>
                    keymap[g', k', l'] == if k' < k
                                          then old(keymap[g', k', l']).(symbol := InitSymbol(lay, g', k', l', old(keymap[g', k', l'].symbol)))
                                          else old(keymap[g', k', l'])
      {
        var maxGroups := lay.numLayouts(k) % MAX_GROUPS;
        var g := 0;
        while g < maxGroups
          invariant 0 <= g <= maxGroups
          invariant forall g', k', l' :: 0 <= g' < MAX_GROUPS && 0 <= k' < MAX_KEYCODE && 0 <= l' < MAX_LEVELS ==>
                      keymap[g', k', l'] == if k' < k || (k' == k && g' < g)
                                            then old(keymap[g', k', l']).(symbol := InitSymbol(lay, g', k', l', old(keymap[g', k', l'].symbol)))
                                            else old(keymap[g', k', l'])
        {
          var maxLevels := lay.numLevels(k, g);
          if maxLevels >= MAX_LEVELS {
            maxLevels := MAX_LEVELS;
          }
          var l := 0;
          while l < maxLevels
            invariant 0 <= l <= maxLevels
            invariant forall g', k', l' :: 0 <= g' < MAX_GROUPS && 0 <= k' < MAX_KEYCODE && 0 <= l' < MAX_LEVELS ==>
                        keymap[g', k', l'] == if k' < k || (k' == k && g' < g) || (k' == k && g' == g && l' < l)
                                              then old(keymap[g', k', l']).(symbol := InitSymbol(lay, g', k', l', old(keymap[g', k', l'].symbol)))
                                              else old(keymap[g', k', l'])
          {
            var keysym := lay.symAt(k, g, l);
            if keysym.Some? {
              keymap[g, k, l] := keymap[g, k, l].(symbol := keysym.value);
            }
            l := l + 1;
          }
          g := g + 1;
        }
        k := k + 1;
      }
      ret := 0;
    }

    /**
     * What xhd_modes_register_mode does to the mode it registers: the
     * keymap is filled from xkb (the status is ignored) and the mode is
     * named. Nothing else about the mode changes.
     */
    method Name(n: string, xkb: XkbSource)
      requires Valid()
      modifies this, keymap
      ensures Valid() && Repr == old(Repr)
      ensures name == n && grabs == old(grabs) && keymap == old(keymap) && curGroup == old(curGroup)
      ensures forall g, k, l :: 0 <= g < MAX_GROUPS && 0 <= k < MAX_KEYCODE && 0 <= l < MAX_LEVELS ==>
                keymap[g, k, l] == InitKey(xkb, g, k, l, old(keymap[g, k, l]))
    {
      var _ := KeymapInit(xkb);
      name := n;
    }

    /** The keymap's slots as a value: slots[group][keycode][level]. */
    ghost function Slots(): (slots: seq<seq<seq<KeySlot>>>)
      reads this, keymap
      requires Shaped()
      ensures AddActionSpec.Shaped(slots)
      ensures forall g, k, l :: 0 <= g < MAX_GROUPS && 0 <= k < MAX_KEYCODE && 0 <= l < MAX_LEVELS ==>
                slots[g][k][l] == keymap[g, k, l]
    {
      seq(MAX_GROUPS, g requires 0 <= g < MAX_GROUPS && Shaped() reads this, keymap =>
        seq(MAX_KEYCODE, k requires 0 <= k < MAX_KEYCODE && 0 <= g < MAX_GROUPS && Shaped() reads this, keymap =>
          seq(MAX_LEVELS, l requires 0 <= l < MAX_LEVELS && 0 <= k < MAX_KEYCODE && 0 <= g < MAX_GROUPS && Shaped()
                            reads this, keymap =>
            keymap[g, k, l])))
    }

    /**
     * The keymap part of add_action's progress on reaching (g, k): every
     * cell before (g, k) holds its keys from `done`, every other cell its
     * keys from `slots`.
     */
    ghost predicate Scanned(g: nat, k: nat, slots: seq<seq<seq<KeySlot>>>, done: seq<seq<seq<Key>>>)
      reads this, keymap
      requires Shaped() && AddActionSpec.Shaped(slots) && AddActionSpec.Shaped(done) && Position(g, k)
    {
      forall g', k', l {:trigger keymap[g', k', l]} :: 0 <= g' < MAX_GROUPS && 0 <= k' < MAX_KEYCODE && 0 <= l < MAX_LEVELS ==>
        keymap[g', k', l] == if Earlier(g', k', g, k) then done[g'][k'][l] else slots[g'][k'][l]
    }

    /** Having passed the last cell of group g is having reached group g + 1. */
    lemma {:induction false} ScannedNextGroup(g: nat, slots: seq<seq<seq<KeySlot>>>, done: seq<seq<seq<Key>>>)
      requires Shaped() && AddActionSpec.Shaped(slots) && AddActionSpec.Shaped(done) && g < MAX_GROUPS
      requires Scanned(g, MAX_KEYCODE, slots, done)
      ensures Scanned(g + 1, 0, slots, done)
    {
    }

    /**
     * Cell (g, k) of xhd_modes_add_action's scan, inside the scan that
     * started from keymap `slots` (symbol table `sym`) and mask m0 and
     * ends in keymap `done`, with group g's grab list gl holding `start`
     * then the group's earlier grabs: the cell's keys are read, scanned
     * with the mask the scan has reached, and written back.
     */
    method StepCell(gl: GrabList, g: nat, k: nat, ks: Keysym, mod: Modifier, cmds: seq<string>,
                    ghost slots: seq<seq<seq<KeySlot>>>, ghost done: seq<seq<seq<Key>>>,
                    ghost sym: SymTable, ghost m0: Modifier, ghost start: seq<Grab>)
      returns (mod': Modifier)
      requires Shaped() && gl.Valid() && g < MAX_GROUPS && k < MAX_KEYCODE
      requires AddActionSpec.Shaped(slots) && AddActionSpec.Shaped(done) && AddActionSpec.Shaped(sym)
      requires forall k, l :: 0 <= k < MAX_KEYCODE && 0 <= l < MAX_LEVELS ==> slots[g][k][l].symbol == sym[g][k][l]
      requires forall k, l {:trigger done[g][k][l]} :: 0 <= k < MAX_KEYCODE && 0 <= l < MAX_LEVELS ==>
                 done[g][k][l] == SlotAfter(slots[g][k][l], RegsAt(sym, ks, m0, g, k), l, cmds)
      requires Scanned(g, k, slots, done)
      requires mod == ModAt(sym, ks, m0, g, k)
      requires gl.Contents() == start + GroupGrabs(sym, ks, m0, g, k)
      modifies keymap, gl, gl.list
      ensures gl.Valid()
      ensures gl.list == old(gl.list) || fresh(gl.list)
      ensures Scanned(g, k + 1, slots, done)
      ensures mod' == ModAt(sym, ks, m0, g, k + 1)
      ensures gl.Contents() == start + GroupGrabs(sym, ks, m0, g, k + 1)
    {
      var cell := [keymap[g, k, 0], keymap[g, k, 1]];
      var cell';
      ModAtStep(sym, ks, m0, g, k);
      mod', cell' := ScanCell(gl, k, ks, mod, cmds, cell);
      AppendAssoc(start, GroupGrabs(sym, ks, m0, g, k), CellGrabs(k, RegsAt(sym, ks, m0, g, k)));
      StoreCell(g, k, cell'[0], cell'[1], slots, done);
    }

    /**
     * The write-back of cell (g, k) at the end of its scan: once the cell
     * holds its keys from `done`, the scan has passed it.
     */
    method StoreCell(g: nat, k: nat, key0: KeySlot, key1: KeySlot,
                     ghost slots: seq<seq<seq<KeySlot>>>, ghost done: seq<seq<seq<Key>>>)
      requires Shaped() && g < MAX_GROUPS && k < MAX_KEYCODE
      requires AddActionSpec.Shaped(slots) && AddActionSpec.Shaped(done)
      requires Scanned(g, k, slots, done)
      requires key0 == done[g][k][0] && key1 == done[g][k][1]
      modifies keymap
      ensures Scanned(g, k + 1, slots, done)
    {
      keymap[g, k, 0] := key0;
      keymap[g, k, 1] := key1;
      forall g', k', l | 0 <= g' < MAX_GROUPS && 0 <= k' < MAX_KEYCODE && 0 <= l < MAX_LEVELS
        ensures keymap[g', k', l] == if Earlier(g', k', g, k + 1) then done[g'][k'][l] else slots[g'][k'][l]
      {
        if g' != g || k' != k {
          assert keymap[g', k', l] == old(keymap[g', k', l]);
        }
      }
    }

    /**
     * Group g of xhd_modes_add_action's scan: the keycode loop over the
     * group's cells, entered with the mask the scan has reached; returns
     * the mask at the end of the group.
     */
    method ScanGroup(gl: GrabList, g: nat, ks: Keysym, mod: Modifier, cmds: seq<string>,
                     ghost slots: seq<seq<seq<KeySlot>>>, ghost done: seq<seq<seq<Key>>>,
                     ghost sym: SymTable, ghost m0: Modifier)
      returns (mod': Modifier)
      requires Shaped() && gl.Valid() && g < MAX_GROUPS
      requires AddActionSpec.Shaped(slots) && AddActionSpec.Shaped(done) && AddActionSpec.Shaped(sym)
      requires forall k, l :: 0 <= k < MAX_KEYCODE && 0 <= l < MAX_LEVELS ==> slots[g][k][l].symbol == sym[g][k][l]
      requires forall k, l {:trigger done[g][k][l]} :: 0 <= k < MAX_KEYCODE && 0 <= l < MAX_LEVELS ==>
                 done[g][k][l] == SlotAfter(slots[g][k][l], RegsAt(sym, ks, m0, g, k), l, cmds)
      requires Scanned(g, 0, slots, done)
      requires mod == ModAt(sym, ks, m0, g, 0)
      modifies keymap, gl, gl.list
      ensures gl.Valid()
      ensures gl.list == old(gl.list) || fresh(gl.list)
      ensures Scanned(g + 1, 0, slots, done)
      ensures mod' == ModAt(sym, ks, m0, g + 1, 0)
      ensures gl.Contents() == old(gl.Contents()) + GroupGrabs(sym, ks, m0, g, MAX_KEYCODE)
    {
      ghost var start := gl.Contents();
      mod' := mod;
      var k := 0;
      while k < MAX_KEYCODE
        invariant 0 <= k <= MAX_KEYCODE
        invariant gl.Valid()
        invariant gl.list == old(gl.list) || fresh(gl.list)
        invariant Scanned(g, k, slots, done)
        invariant mod' == ModAt(sym, ks, m0, g, k)
        invariant gl.Contents() == start + GroupGrabs(sym, ks, m0, g, k)
      {
        mod' := StepCell(gl, g, k, ks, mod', cmds, slots, done, sym, m0, start);
        k := k + 1;
      }
      ScannedNextGroup(g, slots, done);
    }

    /**
     * Group g of xhd_modes_add_action's scan on the mode itself: group g's
     * grab list is scanned into, and a grown list joins the mode's
     * footprint. The other groups' grab lists are left alone.
     */
    method StepGroup(g: nat, ks: Keysym, mod: Modifier, cmds: seq<string>,
                     ghost slots: seq<seq<seq<KeySlot>>>, ghost done: seq<seq<seq<Key>>>,
                     ghost sym: SymTable, ghost m0: Modifier)
      returns (mod': Modifier)
      requires Valid() && g < MAX_GROUPS
      requires AddActionSpec.Shaped(slots) && AddActionSpec.Shaped(done) && AddActionSpec.Shaped(sym)
      requires forall g, k, l {:trigger slots[g][k][l]} :: 0 <= g < MAX_GROUPS && 0 <= k < MAX_KEYCODE && 0 <= l < MAX_LEVELS ==>
                 slots[g][k][l].symbol == sym[g][k][l]
      requires forall g, k, l {:trigger done[g][k][l]} :: 0 <= g < MAX_GROUPS && 0 <= k < MAX_KEYCODE && 0 <= l < MAX_LEVELS ==>
                 done[g][k][l] == SlotAfter(slots[g][k][l], RegsAt(sym, ks, m0, g, k), l, cmds)
      requires Scanned(g, 0, slots, done)
      requires mod == ModAt(sym, ks, m0, g, 0)
      modifies Repr
      ensures Valid() && fresh(Repr - old(Repr))
      ensures name == old(name) && curGroup == old(curGroup) && grabs == old(grabs) && keymap == old(keymap)
      ensures Scanned(g + 1, 0, slots, done)
      ensures mod' == ModAt(sym, ks, m0, g + 1, 0)
      ensures grabs[g].Contents() == old(grabs[g].Contents()) + GroupGrabs(sym, ks, m0, g, MAX_KEYCODE)
      ensures forall g' :: 0 <= g' < MAX_GROUPS && g' != g ==> grabs[g'].Contents() == old(grabs[g'].Contents())
    {
      mod' := ScanGroup(grabs[g], g, ks, mod, cmds, slots, done, sym, m0);
      Repr := Repr + {grabs[g].list};
      forall g' | 0 <= g' < MAX_GROUPS
        ensures grabs[g'] in Repr && grabs[g'].list in Repr && grabs[g'].Valid()
        ensures g' != g ==> grabs[g'].list == old(grabs[g'].list) && grabs[g'].Contents() == old(grabs[g'].Contents())
      {
        if g' != g {
          assert grabs[g'] != grabs[g] && old(grabs[g'].list) != old(grabs[g].list);
        }
      }
      forall g', h | 0 <= g' < h < MAX_GROUPS
        ensures grabs[g'] != grabs[h] && grabs[g'].list != grabs[h].list
      {
        if g' == g || h == g {
          var other := if g' == g then h else g';
          assert grabs[other].list == old(grabs[other].list) && old(grabs[other].list) in old(Repr);
          assert old(grabs[g'].list) != old(grabs[h].list);
        }
      }
    }

    /**
     * The group loop of xhd_modes_add_action, inside the scan that starts
     * from keymap `slots` (symbol table `sym`) and mask m0 and ends in
     * keymap `done`: every group in turn, the mask carried from one group
     * to the next. Returns the mask the scan ends with.
     */
    method GroupLoop(ks: Keysym, m0: Modifier, cmds: seq<string>,
                     ghost slots: seq<seq<seq<KeySlot>>>, ghost done: seq<seq<seq<Key>>>, ghost sym: SymTable)
      returns (mod': Modifier)
      requires Valid()
      requires AddActionSpec.Shaped(slots) && AddActionSpec.Shaped(done) && AddActionSpec.Shaped(sym)
      requires forall g, k, l {:trigger slots[g][k][l]} :: 0 <= g < MAX_GROUPS && 0 <= k < MAX_KEYCODE && 0 <= l < MAX_LEVELS ==>
                 slots[g][k][l].symbol == sym[g][k][l]
      requires forall g, k, l {:trigger done[g][k][l]} :: 0 <= g < MAX_GROUPS && 0 <= k < MAX_KEYCODE && 0 <= l < MAX_LEVELS ==>
                 done[g][k][l] == SlotAfter(slots[g][k][l], RegsAt(sym, ks, m0, g, k), l, cmds)
      requires Scanned(0, 0, slots, done)
      modifies Repr
      ensures Valid() && fresh(Repr - old(Repr))
      ensures name == old(name) && curGroup == old(curGroup) && grabs == old(grabs) && keymap == old(keymap)
      ensures Scanned(MAX_GROUPS, 0, slots, done)
      ensures mod' == ModAt(sym, ks, m0, MAX_GROUPS, 0)
      ensures forall g :: 0 <= g < MAX_GROUPS ==>
                grabs[g].Contents() == old(grabs[g].Contents()) + GroupGrabs(sym, ks, m0, g, MAX_KEYCODE)
    {
      mod' := m0;
      var g := 0;
      while g < MAX_GROUPS
        invariant 0 <= g <= MAX_GROUPS
        invariant Valid() && fresh(Repr - old(Repr))
        invariant name == old(name) && curGroup == old(curGroup) && grabs == old(grabs) && keymap == old(keymap)
        invariant Scanned(g, 0, slots, done)
        invariant mod' == ModAt(sym, ks, m0, g, 0)
        invariant forall g' :: 0 <= g' < MAX_GROUPS ==>
                    grabs[g'].Contents() == old(grabs[g'].Contents()) + if g' < g then GroupGrabs(sym, ks, m0, g', MAX_KEYCODE) else []
      {
        mod' := StepGroup(g, ks, mod', cmds, slots, done, sym, m0);
        g := g + 1;
      }
    }

    /**
     * The scan of xhd_modes_add_action and its effect on the action: the
     * group loop, after which the action's mask is left as the scan leaves it.
     */
    method ScanGroups(ks: Keysym, action: ActionBuilder, cmds: seq<string>,
                      ghost slots: seq<seq<seq<KeySlot>>>, ghost done: seq<seq<seq<Key>>>,
                      ghost sym: SymTable, ghost m0: Modifier)
      requires Valid() && action !in Repr
      requires AddActionSpec.Shaped(slots) && AddActionSpec.Shaped(done) && AddActionSpec.Shaped(sym)
      requires forall g, k, l {:trigger slots[g][k][l]} :: 0 <= g < MAX_GROUPS && 0 <= k < MAX_KEYCODE && 0 <= l < MAX_LEVELS ==>
                 slots[g][k][l].symbol == sym[g][k][l]
      requires forall g, k, l {:trigger done[g][k][l]} :: 0 <= g < MAX_GROUPS && 0 <= k < MAX_KEYCODE && 0 <= l < MAX_LEVELS ==>
                 done[g][k][l] == SlotAfter(slots[g][k][l], RegsAt(sym, ks, m0, g, k), l, cmds)
      requires Scanned(0, 0, slots, done)
      requires action.mod == m0
      modifies Repr, action`mod
      ensures Valid() && fresh(Repr - old(Repr))
      ensures name == old(name) && curGroup == old(curGroup) && grabs == old(grabs) && keymap == old(keymap)
      ensures forall g, k, l {:trigger keymap[g, k, l]} :: 0 <= g < MAX_GROUPS && 0 <= k < MAX_KEYCODE && 0 <= l < MAX_LEVELS ==>
                keymap[g, k, l] == done[g][k][l]
      ensures action.mod == ModAt(sym, ks, m0, MAX_GROUPS, 0)
      ensures forall g :: 0 <= g < MAX_GROUPS ==>
                grabs[g].Contents() == old(grabs[g].Contents()) + GroupGrabs(sym, ks, m0, g, MAX_KEYCODE)
    {
      var mod' := GroupLoop(ks, action.mod, cmds, slots, done, sym);
      label scanned:
      action.mod := mod';
      forall g | 0 <= g < MAX_GROUPS
        ensures grabs[g].Contents() == old@scanned(grabs[g].Contents())
      {
        assert grabs[g] in Repr && grabs[g].list in Repr;
      }
    }

    /**
     * xhd_modes_add_action: scan every cell group by group, keycode by
     * keycode, and in each cell where the keysym is found register a copy
     * of the action (with the mask as it stands, the shift bit added for a
     * level-1 match and kept from then on) with the key at the target
     * level, and append (keycode, mask) to that group's grab list. The
     * action's own mask is left as the scan leaves it. Always 0.
     */
    method AddAction(ks: Keysym, action: ActionBuilder) returns (ret: int)
      requires Valid() && action.Valid() && action !in Repr && action.cmds !in Repr
      modifies Repr, action
      ensures Valid() && fresh(Repr - old(Repr))
      ensures ret == 0
      ensures name == old(name) && curGroup == old(curGroup) && grabs == old(grabs) && keymap == old(keymap)
      ensures action.cmds == old(action.cmds) && action.numCmds == old(action.numCmds) && action.allocCmds == old(action.allocCmds)
      ensures unchanged(action.cmds)
      ensures action.mod == ModAt(old(Symbols()), ks, old(action.mod), MAX_GROUPS, 0)
      ensures forall g, k, l :: 0 <= g < MAX_GROUPS && 0 <= k < MAX_KEYCODE && 0 <= l < MAX_LEVELS ==>
                keymap[g, k, l] == SlotAfter(old(keymap[g, k, l]), RegsAt(old(Symbols()), ks, old(action.mod), g, k), l,
                                             old(action.Value().cmds))
      ensures forall g :: 0 <= g < MAX_GROUPS ==>
                grabs[g].Contents() == old(grabs[g].Contents()) + GroupGrabs(old(Symbols()), ks, old(action.mod), g, MAX_KEYCODE)
    {
      ghost var sym: SymTable := Symbols();
      ghost var slots: seq<seq<seq<KeySlot>>> := Slots();
      var cmds := action.Value().cmds;
      ghost var done := ScanResult(slots, sym, ks, action.mod, cmds);
      ScanGroups(ks, action, cmds, slots, done, sym, action.mod);
      ret := 0;
    }
  }
}

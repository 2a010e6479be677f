/**
 * The counted, grow-by-copy arrays of xhd_modes.h: a group's grab list,
 * a key's action buffer and an action's command buffer.
 *
 * Every growth doubles-plus-two the capacity and copies the existing
 * entries in order. Whether the allocation succeeds is a parameter
 * (`allocOk`), since calloc is outside the model.
 */
module Registration {
  import opened XhdTypes

  /** xhd_grablist_t: the grabs of one group, stored in an array of capacity alloc. */
  class GrabList {
    var num: nat
    var alloc: nat
    var list: array<Grab>

    ghost predicate Valid()
      reads this
    {
      num <= alloc && alloc == list.Length
    }

    /** The registered grabs, oldest first. */
    ghost function Contents(): seq<Grab>
      reads this, list
      requires Valid()
    {
      list[..num]
    }

    /** A fresh list as xhd_modes_alloc_mode builds it: empty, capacity GRAB_LIST_SIZE. */
    constructor ()
      ensures Valid() && fresh(list)
      ensures Contents() == [] && alloc == GRAB_LIST_SIZE
    {
      num := 0;
      alloc := GRAB_LIST_SIZE;
      list := new Grab[GRAB_LIST_SIZE](_ => Grab(0, 0));
    }

    /**
     * xhd_modes_register_grab: append (keycode, modifier) at index num,
     * growing the array first when it is full. No deduplication.
     */
    method RegisterGrab(keycode: nat, modifier: Modifier, allocOk: bool) returns (ret: int)
      requires Valid()
      modifies this, list
      ensures Valid()
      ensures ret == (if old(num) < old(alloc) || allocOk then 0 else -ENOMEM)
      ensures ret == 0 ==> Contents() == old(Contents()) + [Grab(keycode, modifier)]
      ensures ret == 0 && old(num) < old(alloc) ==> alloc == old(alloc) && list == old(list)
      ensures ret == 0 && old(alloc) <= old(num) ==> alloc == 2 * old(alloc) + 2 && fresh(list)
      ensures ret != 0 ==> num == old(num) && alloc == old(alloc) && list == old(list)
                           && list[..] == old(list[..])
    {
      if alloc <= num {
        var grown := 2 * alloc + 2;
        if !allocOk {
          return -ENOMEM;
        }
        var tmp := new Grab[grown](_ => Grab(0, 0));
        var i := 0;
        while i < num
          modifies tmp
          invariant 0 <= i <= num
          invariant tmp[..i] == list[..i]
        {
          tmp[i] := list[i];
          i := i + 1;
        }
        list := tmp;
        alloc := grown;
      }
      list[num] := Grab(keycode, modifier);
      num := num + 1;
      ret := 0;
    }
  }

  /**
   * xhd_action_t while the parser is still filling it in: a modifier mask
   * and a command buffer. The alloc_cmds field that xhd_modes.h uses is
   * not declared in xhd_types.h; the model adds it.
   */
  class ActionBuilder {
    var mod: Modifier
    var numCmds: nat
    var allocCmds: nat
    var cmds: array<string>

    ghost predicate Valid()
      reads this
    {
      numCmds <= allocCmds && allocCmds == cmds.Length
    }

    /** The value a key stores when this action is registered with it (`*action`). */
    function Value(): (a: Action)
      reads this, cmds
      requires Valid()
      ensures a.mod == mod && |a.cmds| == numCmds
      ensures forall i :: 0 <= i < numCmds ==> a.cmds[i] == cmds[i]
    {
      Action(mod, cmds[..numCmds])
    }

    /** A zero-filled action with the given mask: no command buffer yet. */
    constructor (m: Modifier)
      ensures Valid() && fresh(cmds)
      ensures mod == m && numCmds == 0 && allocCmds == 0
    {
      mod := m;
      numCmds := 0;
      allocCmds := 0;
      cmds := new string[0];
    }

    /**
     * xhd_modes_register_command. With spare capacity the command is stored
     * at index numCmds. When the buffer is full it is only grown (copying
     * the existing commands in order) and the call returns 0 WITHOUT
     * storing cmd, exactly as the source does.
     */
    method RegisterCommand(cmd: string, allocOk: bool) returns (ret: int)
      requires Valid()
      modifies this, cmds
      ensures Valid() && mod == old(mod)
      ensures ret == (if old(numCmds) < old(allocCmds) || allocOk then 0 else -ENOMEM)
      ensures old(numCmds) < old(allocCmds) ==>
                cmds == old(cmds) && allocCmds == old(allocCmds) && numCmds == old(numCmds) + 1
                && cmds[..numCmds] == old(cmds[..numCmds]) + [cmd]
      ensures old(allocCmds) <= old(numCmds) && allocOk ==>
                fresh(cmds) && allocCmds == 2 * old(allocCmds) + 2 && numCmds == old(numCmds)
                && cmds[..numCmds] == old(cmds[..numCmds])
      ensures ret != 0 ==> cmds == old(cmds) && allocCmds == old(allocCmds) && numCmds == old(numCmds)
                           && cmds[..] == old(cmds[..])
    {
      if allocCmds <= numCmds {
        var grown := 2 * allocCmds + 2;
        if !allocOk {
          return -ENOMEM;
        }
        var tmp := new string[grown](_ => "");
        var i := 0;
        while i < numCmds
          modifies tmp
          invariant 0 <= i <= numCmds
          invariant tmp[..i] == cmds[..i]
        {
          tmp[i] := cmds[i];
          i := i + 1;
        }
        cmds := tmp;
        allocCmds := grown;
        return 0;
      }
      cmds[numCmds] := cmd;
      numCmds := numCmds + 1;
      ret := 0;
    }
  }

  /**
   * xhd_modes_register_action on the key held in one keymap slot. With
   * spare capacity the action is stored at index numActs. When the buffer
   * is full it is only grown to 2*alloc+2 (existing actions copied in
   * order, new slots zeroed) and the result is 0 with the action NOT stored.
   * The result pairs the new key with the return code.
   */
  function RegisterAction(key: Key, action: Action, allocOk: bool): (r: (Key, int))
    requires key.Valid()
    ensures r.0.Valid() && r.0.symbol == key.symbol
    ensures r.1 == (if key.numActs < key.allocActs || allocOk then 0 else -ENOMEM)
    ensures key.numActs < key.allocActs ==>
              r.0.Actions() == key.Actions() + [action] && r.0.allocActs == key.allocActs
    ensures key.allocActs <= key.numActs ==> r.0.Actions() == key.Actions()
    ensures key.allocActs <= key.numActs && allocOk ==> r.0.allocActs == 2 * key.allocActs + 2
    ensures r.1 != 0 ==> r.0 == key
  {
    if key.allocActs <= key.numActs then
      if !allocOk then (key, -ENOMEM)
      else
        var grown := 2 * key.allocActs + 2;
        var copied := key.acts[..key.numActs] + seq(grown - key.numActs, _ => EmptyAction);
        assert copied[..key.numActs] == key.acts[..key.numActs];
        (Key(key.symbol, key.numActs, grown, copied), 0)
    else
      var stored := key.acts[key.numActs := action];
      assert stored[..key.numActs + 1] == key.acts[..key.numActs] + [action];
      (Key(key.symbol, key.numActs + 1, key.allocActs, stored), 0)
  }

  /** Successive registrations of `actions` on one key, every allocation succeeding. */
  function RegisterActions(key: Key, actions: seq<Action>): (r: Key)
    requires key.Valid()
    ensures r.Valid() && r.symbol == key.symbol
    decreases |actions|
  {
    if actions == [] then key
    else RegisterActions(RegisterAction(key, actions[0], true).0, actions[1..])
  }

  /**
   * Growth correctness when the buffer has room: registering n actions on
   * a key with at least n free slots stores all of them, in order, after
   * the existing ones, and never deduplicates.
   */
  lemma {:induction false} RegisterActionsWithRoom(key: Key, actions: seq<Action>)
    requires key.Valid() && key.numActs + |actions| <= key.allocActs
    ensures RegisterActions(key, actions).Actions() == key.Actions() + actions
    decreases |actions|
  {
    if actions != [] {
      var next := RegisterAction(key, actions[0], true).0;
      RegisterActionsWithRoom(next, actions[1..]);
      assert actions == [actions[0]] + actions[1..];
    }
  }

  /**
   * On a key fresh from calloc (no buffer) the first registration is lost:
   * it only grows the buffer. The second one is stored.
   */
  lemma {:induction false} FreshKeyKeepsOnlySecond(symbol: Keysym, a1: Action, a2: Action)
    ensures RegisterActions(Key(symbol, 0, 0, []), [a1]).Actions() == []
    ensures RegisterActions(Key(symbol, 0, 0, []), [a1, a2]).Actions() == [a2]
  {
    var k0 := Key(symbol, 0, 0, []);
    var k1 := RegisterAction(k0, a1, true).0;
    assert RegisterActions(k0, [a1]) == RegisterActions(k1, []);
    assert [a1, a2][1..] == [a2];
    var k2 := RegisterAction(k1, a2, true).0;
    assert RegisterActions(k1, [a2]) == RegisterActions(k2, []);
  }
}

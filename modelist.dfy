/**
 * The mode list of xhd_modes.h: a counted array of modes whose first
 * numModes entries are registered; the rest are allocated, unnamed modes
 * waiting to be registered.
 */
module ModeList {
  import opened XhdTypes
  import opened XhdModes

  /** Every mode is well formed, and no two modes share any part. */
  ghost predicate Separate(s: seq<Mode>)
    reads set i | 0 <= i < |s| :: s[i]
    reads set i, o | 0 <= i < |s| && o in s[i].Repr :: o
  {
    (forall i :: 0 <= i < |s| ==> s[i].Valid()) &&
    (forall i, j :: 0 <= i < j < |s| ==> s[i].Repr !! s[j].Repr)
  }

  /** A mode as xhd_modes_alloc_mode leaves it. */
  ghost predicate Pristine(m: Mode)
    reads m, m.Repr
  {
    m.Valid() && m.name == "" && m.curGroup == 0 &&
    (forall g :: 0 <= g < MAX_GROUPS ==> m.grabs[g].Contents() == []) &&
    (forall g, k, l :: 0 <= g < MAX_GROUPS && 0 <= k < MAX_KEYCODE && 0 <= l < MAX_LEVELS ==>
       m.keymap[g, k, l] == EmptyKey)
  }

  /**
   * The modes `kept` followed by freshly allocated modes up to `total`
   * entries, as the allocation loops of xhd_modes_init and (corrected)
   * xhd_modes_register_mode produce them, every allocation succeeding.
   */
  method AllocModes(kept: seq<Mode>, total: nat) returns (s: seq<Mode>)
    requires Separate(kept) && |kept| <= total
    ensures |s| == total && s[..|kept|] == kept
    ensures Separate(s)
    ensures forall i :: |kept| <= i < total ==> fresh(s[i].Repr) && Pristine(s[i])
  {
    s := kept;
    while |s| < total
      invariant |kept| <= |s| <= total && s[..|kept|] == kept
      invariant Separate(s)
      invariant forall i :: |kept| <= i < |s| ==> fresh(s[i].Repr) && Pristine(s[i])
    {
      var m := new Mode();
      s := s + [m];
    }
  }

  /** A new mode array holding `kept` followed by fresh modes up to `total` entries. */
  method NewModes(kept: seq<Mode>, total: nat) returns (a: array<Mode>)
    requires Separate(kept) && |kept| <= total
    ensures fresh(a) && a.Length == total && a[..|kept|] == kept
    ensures Separate(a[..])
    ensures forall i :: |kept| <= i < total ==> fresh(a[i].Repr) && Pristine(a[i])
    ensures forall i :: 0 <= i < total ==> a !in a[i].Repr
  {
    var s := AllocModes(kept, total);
    a := new Mode[total](i requires 0 <= i < total => s[i]);
    assert a[..] == s;
  }

  /**
   * What a slot of the mode array holds: calloc's zeros (no grab lists,
   * no keymap) or the buffers xhd_modes_alloc_mode allocates.
   */
  datatype Slot = Zeroed | Allocated

  /**
   * The grow step of xhd_modes_register_mode as written, on slot states,
   * for a full list (num == alloc == |slots|): the new array keeps the
   * first num slots and is zero-filled after them, while the allocation
   * loop calls xhd_modes_alloc_mode on the OLD array at the indices
   * num .. 2*alloc. Returns the new array and the indices that loop writes.
   */
  function GrowAsWritten(slots: seq<Slot>, num: nat): (r: (seq<Slot>, seq<nat>))
    requires num == |slots|
    ensures |r.0| == 2 * |slots| + 1 && r.0[..num] == slots
    ensures |r.1| == |slots| + 1 && forall j :: 0 <= j < |r.1| ==> r.1[j] == num + j
  {
    var grown := 2 * |slots| + 1;
    (slots + seq(grown - num, _ => Zeroed), seq(grown - num, j => num + j))
  }

  /**
   * As written, growing a full list writes only past the end of the old
   * array, and the slot keymap_init and the name are then applied to is
   * still zero-filled.
   */
  lemma {:induction false} GrowAsWrittenOverruns(slots: seq<Slot>)
    ensures var r := GrowAsWritten(slots, |slots|);
      |r.1| > 0 && (forall j :: 0 <= j < |r.1| ==> r.1[j] >= |slots|) && r.0[|slots|] == Zeroed
  {
  }

  /** The grow step as intended: every slot from num on holds a freshly allocated mode. */
  function GrowIntended(slots: seq<Slot>, num: nat): (r: seq<Slot>)
    requires num == |slots|
    ensures |r| == 2 * |slots| + 1 && r[..num] == slots
    ensures forall j :: num <= j < |r| ==> r[j] == Allocated
  {
    slots + seq(2 * |slots| + 1 - num, _ => Allocated)
  }

  /** xhd_modelist_t: the modes, how many are registered, and the selected one. */
  class ModeList {
    var curMode: nat
    var numModes: nat
    var allocModes: nat
    var modes: array<Mode>

    ghost predicate Valid()
      reads this, modes
      reads set i | 0 <= i < modes.Length :: modes[i]
      reads set i, o | 0 <= i < modes.Length && o in modes[i].Repr :: o
    {
      numModes <= allocModes == modes.Length &&
      Separate(modes[..]) &&
      (forall i :: 0 <= i < modes.Length ==> this !in modes[i].Repr && modes !in modes[i].Repr)
    }

    /**
     * xhd_modes_init when every allocation succeeds: `size` (the
     * MODE_LIST_SIZE constant) fresh modes, none registered, mode 0 selected.
     */
    constructor (size: nat)
      ensures Valid() && fresh(modes)
      ensures curMode == 0 && numModes == 0 && allocModes == size
      ensures forall i :: 0 <= i < size ==> Pristine(modes[i])
    {
      var a := NewModes([], size);
      curMode := 0;
      numModes := 0;
      allocModes := size;
      modes := a;
    }

    /**
     * xhd_modes_register_mode, with the grow loop allocating the new modes
     * into the new array. When the list is full its capacity grows to
     * 2*alloc+1, the registered modes are carried over in order and the
     * rest are fresh; if that allocation fails (allocOk false) the list is
     * unchanged and the result is -ENOMEM. Then the next unregistered
     * mode's keymap is filled from xkb (its status is ignored), the mode
     * is named, and the count grows by one.
     */
    method RegisterMode(name: string, xkb: XkbSource, allocOk: bool) returns (ret: int)
      requires Valid()
      modifies this
      modifies if numModes < allocModes then {modes[numModes], modes[numModes].keymap} else {}
      ensures Valid() && curMode == old(curMode)
      ensures ret == (if old(numModes) < old(allocModes) || allocOk then 0 else -ENOMEM)
      ensures ret != 0 ==> numModes == old(numModes) && allocModes == old(allocModes) && modes == old(modes)
      ensures ret == 0 ==> numModes == old(numModes) + 1 && modes[old(numModes)].name == name
      ensures ret == 0 ==> forall i :: 0 <= i < old(numModes) ==> modes[i] == old(modes[i])
      ensures old(numModes) < old(allocModes) ==>
                allocModes == old(allocModes) && modes == old(modes) &&
                forall g, k, l :: 0 <= g < MAX_GROUPS && 0 <= k < MAX_KEYCODE && 0 <= l < MAX_LEVELS ==>
                  modes[old(numModes)].keymap[g, k, l] == InitKey(xkb, g, k, l, old(modes[numModes].keymap[g, k, l]))
      ensures old(numModes) < old(allocModes) ==>
                modes[old(numModes)].curGroup == old(modes[numModes].curGroup) &&
                modes[old(numModes)].grabs == old(modes[numModes].grabs) &&
                (forall g :: 0 <= g < MAX_GROUPS ==>
                   modes[old(numModes)].grabs[g].Contents() == old(modes[numModes].grabs[g].Contents())) &&
                forall i :: 0 <= i < allocModes && i != old(numModes) ==> unchanged(modes[i].Repr)
      ensures old(allocModes) <= old(numModes) && allocOk ==>
                allocModes == 2 * old(allocModes) + 1 && fresh(modes) && fresh(modes[old(numModes)]) &&
                forall g, k, l :: 0 <= g < MAX_GROUPS && 0 <= k < MAX_KEYCODE && 0 <= l < MAX_LEVELS ==>
                  modes[old(numModes)].keymap[g, k, l] == InitKey(xkb, g, k, l, EmptyKey)
      ensures old(allocModes) <= old(numModes) && allocOk ==>
                modes[old(numModes)].curGroup == 0 &&
                (forall g :: 0 <= g < MAX_GROUPS ==> modes[old(numModes)].grabs[g].Contents() == []) &&
                forall i :: old(numModes) < i < allocModes ==> Pristine(modes[i])
    {
      if allocModes <= numModes {
        if !allocOk {
          return -ENOMEM;
        }
        Grow();
      }
      Fill(name, xkb);
      ret := 0;
    }

    /**
     * The grow step of xhd_modes_register_mode, allocating into the new
     * array: capacity 2*alloc+1, the registered modes carried over in
     * order, fresh modes after them.
     */
    method Grow()
      requires Valid() && allocModes <= numModes
      modifies this
      ensures Valid() && fresh(modes)
      ensures curMode == old(curMode) && numModes == old(numModes) && allocModes == 2 * old(allocModes) + 1
      ensures forall i :: 0 <= i < numModes ==> modes[i] == old(modes[i])
      ensures forall i :: numModes <= i < allocModes ==> fresh(modes[i].Repr) && Pristine(modes[i])
    {
      var grown := 2 * allocModes + 1;
      var a := NewModes(modes[..numModes], grown);
      forall i | 0 <= i < grown
        ensures this !in a[i].Repr
      {
        if i < numModes {
          assert a[i] == modes[i];
        }
      }
      modes := a;
      allocModes := grown;
    }

    /**
     * The registration step of xhd_modes_register_mode on a list with
     * room: the next unregistered mode's keymap is filled from xkb (its
     * status is ignored), the mode is named and the count grows by one.
     */
    method Fill(name: string, xkb: XkbSource)
      requires Valid() && numModes < allocModes
      modifies this, modes[numModes], modes[numModes].keymap
      ensures Valid()
      ensures curMode == old(curMode) && numModes == old(numModes) + 1
      ensures allocModes == old(allocModes) && modes == old(modes)
      ensures modes[old(numModes)].name == name
      ensures forall g, k, l :: 0 <= g < MAX_GROUPS && 0 <= k < MAX_KEYCODE && 0 <= l < MAX_LEVELS ==>
                modes[old(numModes)].keymap[g, k, l] == InitKey(xkb, g, k, l, old(modes[numModes].keymap[g, k, l]))
      ensures modes[old(numModes)].curGroup == old(modes[numModes].curGroup)
      ensures modes[old(numModes)].grabs == old(modes[numModes].grabs)
      ensures forall g :: 0 <= g < MAX_GROUPS ==>
                modes[old(numModes)].grabs[g].Contents() == old(modes[numModes].grabs[g].Contents())
      ensures forall i :: 0 <= i < allocModes && i != old(numModes) ==>
                modes[i].Repr == old(modes[i].Repr) && unchanged(modes[i].Repr)
    {
      var m := modes[numModes];
      m.Name(name, xkb);
      forall i | 0 <= i < modes.Length && i != old(numModes)
        ensures modes[i].Valid() && modes[i].Repr == old(modes[i].Repr)
      {
        assert modes[i].Repr !! m.Repr;
      }
      assert Separate(modes[..]);
      numModes := numModes + 1;
    }

    /** xhd_modes_fini: every mode is released and the list is left empty. */
    method Fini()
      modifies this
      ensures Valid() && fresh(modes)
      ensures curMode == 0 && numModes == 0 && allocModes == 0
    {
      modes := new Mode[0];
      curMode := 0;
      numModes := 0;
      allocModes := 0;
    }
  }
}

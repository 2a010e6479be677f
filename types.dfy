/**
 * The shared vocabulary of the hotkey daemon (xhd_types.h): modifier masks,
 * keysyms, the immutable Action value, grab entries and the Key slot of a
 * mode's keymap.
 */
module XhdTypes {

  /** Shape of a keymap: groups 0..3, keycodes 0..255, shift levels 0..1. */
  const MAX_GROUPS: nat := 4
  const MAX_KEYCODE: nat := 256
  const MAX_LEVELS: nat := 2

  /** Initial capacity of every per-group grab list. */
  const GRAB_LIST_SIZE: nat := 100

  /** errno value returned (negated) when a buffer cannot grow. */
  const ENOMEM: int := 12

  /** xhd_modifier_t is a uint16 bit set: shift is bit 0, lock bit 1, ctrl bit 2, mod1..mod5 bits 3..7. */
  type Modifier = bv16

  /** An xkb keysym: an opaque symbol number; 0 is "no symbol". */
  type Keysym = nat

  type Keycode = k: nat | k < MAX_KEYCODE

  /** The shift bit that add_action infers for symbols found at level 1. */
  const SHIFT: Modifier := 1

  /**
   * A finished action as it is stored in a key: one modifier mask and the
   * ordered commands it runs.
   */
  datatype Action = Action(mod: Modifier, cmds: seq<string>)

  /** What a calloc'ed action slot holds. */
  const EmptyAction := Action(0, [])

  /** A grab entry: only a keycode and a modifier; the group is the list that holds it. */
  datatype Grab = Grab(keycode: nat, modifier: Modifier)

  /**
   * One keymap slot. `acts` is the whole allocated buffer (length allocActs);
   * only its first numActs entries are registered actions.
   */
  datatype Key = Key(symbol: Keysym, numActs: nat, allocActs: nat, acts: seq<Action>)
  {
    predicate Valid() {
      numActs <= allocActs && |acts| == allocActs
    }

    /** The registered actions, in registration order. */
    function Actions(): seq<Action>
      requires Valid()
    {
      acts[..numActs]
    }
  }

  datatype Option<T> = None | Some(value: T)

  /** A key as calloc leaves it: no symbol, no action buffer. */
  const EmptyKey := Key(0, 0, 0, [])

  /** What a keymap slot may hold: a key whose counts agree with its buffer. */
  type KeySlot = k: Key | k.Valid() witness Key(0, 0, 0, [])
}

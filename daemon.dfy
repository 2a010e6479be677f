/**
 * The older, line-based daemon of main.c: one config line per hotkey
 * ("mods+key command"), a fixed key table filled from the keyboard map,
 * a packed per-group list of the keys to grab, and the two event
 * branches of the main loop.
 */
module Daemon {
  import opened XhdTypes
  import opened ConfigSpec
  import opened ConfigProps

  /** Capacity of the fixed per-key arrays symbols[16] and actions[16], and of key_group_pairs[16]. */
  const KEY_SLOTS: nat := 16

  /** The row length of actionlist: slot 0 holds the count, so at most 255 entries. */
  const ACTION_ROW: nat := 256

  /** The mask main applies to a key press's state before comparing it with an action's modifiers. */
  const STATE_MASK: bv16 := 0x9FFF

  // ---------------------------------------------------------------------------
  // Packing: (high << 8) | low, decoded with & 0xFF and >> 8
  //
  // main.c packs non-negative ints whose low part is a keycode (below 256),
  // so the shift-or is the sum high * 256 + low, and on a non-negative v
  // the mask and the shift are v % 256 and v / 256.
  // ---------------------------------------------------------------------------

  /** (hi << 8) | lo, as main.c packs (group, key) and (modifier, key). */
  function Pack(hi: nat, lo: nat): nat {
    hi * 256 + lo
  }

  /** v & 0xFF: the keycode of a packed entry. */
  function Low(v: nat): nat {
    v % 256
  }

  /** v >> 8: the group or modifier of a packed entry. */
  function High(v: nat): nat {
    v / 256
  }

  /** Decoding inverts the packing whenever the low part is a keycode (below 256). */
  lemma {:induction false} PackRoundTrip(hi: nat, lo: nat)
    requires lo < 256
    ensures Low(Pack(hi, lo)) == lo && High(Pack(hi, lo)) == hi
  {
  }

  /** Packing is one-to-one on keycodes: distinct (high, keycode) pairs pack differently. */
  lemma {:induction false} PackInjective(h1: nat, l1: nat, h2: nat, l2: nat)
    requires l1 < 256 && l2 < 256 && Pack(h1, l1) == Pack(h2, l2)
    ensures h1 == h2 && l1 == l2
  {
    PackRoundTrip(h1, l1);
    PackRoundTrip(h2, l2);
  }

  /** A low part of 256 or more spills into the high part: the round trip needs keycodes below 256. */
  lemma {:induction false} PackNeedsKeycode()
    ensures Low(Pack(0, 256)) == 0 && High(Pack(0, 256)) == 1
  {
  }

  // ---------------------------------------------------------------------------
  // parse_modifer: exact, case-sensitive names
  // ---------------------------------------------------------------------------

  /** (uint8_t)-1: what the caller sees for an unknown modifier name. */
  const UNKNOWN_MOD: bv8 := 0xFF

  /** The bit of each modifier name. */
  const ModBits: seq<bv8> := [1, 2, 4, 8, 16, 32, 64, 128]

  /**
   * parse_modifer, as the caller reads it through a uint8_t: the bit of
   * the modifier the name equals exactly (strcmp), or 0xFF.
   */
  function ModifierBit(tok: string): (m: bv8)
    ensures m == UNKNOWN_MOD || m in ModBits
  {
    if tok == "shift" then 1
    else if tok == "lock" then 2
    else if tok == "ctrl" then 4
    else if tok == "mod1" then 8
    else if tok == "mod2" then 16
    else if tok == "mod3" then 32
    else if tok == "mod4" then 64
    else if tok == "mod5" then 128
    else UNKNOWN_MOD
  }

  /** A name yields the bit of keyword i exactly when it is that keyword, letter for letter. */
  lemma {:induction false} ModifierBitExact(tok: string, i: nat)
    requires i < |Keywords|
    ensures ModifierBit(tok) == ModBits[i] <==> tok == Keywords[i]
  {
  }

  /** Any other name, including a differently cased one, is unknown. */
  lemma {:induction false} ModifierBitUnknown(tok: string)
    ensures ModifierBit(tok) == UNKNOWN_MOD <==> tok !in Keywords
  {
  }

  /** The bit each token parses to. */
  function TokenBits(toks: seq<string>): (bits: seq<bv8>)
    ensures |bits| == |toks|
  {
    seq(|toks|, j requires 0 <= j < |toks| => ModifierBit(toks[j]))
  }

  /** The OR of two modifier masks. */
  function BitsOr(a: bv8, b: bv8): bv8 {
    a | b
  }

  /** The OR of the bits, or None as soon as one is UNKNOWN_MOD. */
  function OrBits(bits: seq<bv8>): (r: Option<bv8>)
    decreases |bits|
  {
    if bits == [] then Some(0)
    else
      match OrBits(bits[..|bits| - 1])
      case None => None
      case Some(m) => if Last(bits) == UNKNOWN_MOD then None else Some(BitsOr(m, Last(bits)))
  }

  /** The modifier loop of parse_config_entry on the modifier tokens. */
  function LineMask(toks: seq<string>): Option<bv8> {
    OrBits(TokenBits(toks))
  }

  /** The OR exists exactly when no bit is UNKNOWN_MOD. */
  lemma {:induction false} OrBitsSome(bits: seq<bv8>)
    ensures OrBits(bits).Some? <==> forall j :: 0 <= j < |bits| ==> bits[j] != UNKNOWN_MOD
    decreases |bits|
  {
    if bits != [] {
      var init := bits[..|bits| - 1];
      assert forall j :: 0 <= j < |init| ==> init[j] == bits[j];
      OrBitsSome(init);
    }
  }

  /** OR-ing in a modifier bit b sets bit i exactly when it was set or b is that bit. */
  lemma {:induction false} OrStep(m: bv8, b: bv8, i: nat)
    requires b in ModBits && i < |ModBits|
    ensures BitsOr(m, b) & ModBits[i] != 0 <==> m & ModBits[i] != 0 || b == ModBits[i]
  {
  }

  /** Over modifier bits, bit i of the OR is set exactly when some entry is ModBits[i]. */
  lemma {:induction false} OrBitsExact(bits: seq<bv8>, i: nat)
    requires i < |ModBits| && forall j :: 0 <= j < |bits| ==> bits[j] in ModBits
    ensures OrBits(bits).Some?
    ensures OrBits(bits).value & ModBits[i] != 0 <==> exists j :: 0 <= j < |bits| && bits[j] == ModBits[i]
    decreases |bits|
  {
    if bits != [] {
      var init := bits[..|bits| - 1];
      var b := Last(bits);
      assert forall j :: 0 <= j < |init| ==> init[j] == bits[j];
      OrBitsExact(init, i);
      var m := OrBits(init).value;
      assert b in ModBits && b != UNKNOWN_MOD;
      assert OrBits(bits) == Some(BitsOr(m, b));
      OrStep(m, b, i);
      if exists j :: 0 <= j < |bits| && bits[j] == ModBits[i] {
        var j :| 0 <= j < |bits| && bits[j] == ModBits[i];
        if j < |init| {
          assert init[j] == ModBits[i];
        }
      }
    }
  }

  /** The modifiers of a line are accepted exactly when every token is a modifier name. */
  lemma {:induction false} LineMaskSome(toks: seq<string>)
    ensures LineMask(toks).Some? <==> forall j :: 0 <= j < |toks| ==> toks[j] in Keywords
  {
    var bits := TokenBits(toks);
    OrBitsSome(bits);
    forall j | 0 <= j < |toks|
      ensures bits[j] != UNKNOWN_MOD <==> toks[j] in Keywords
    {
      ModifierBitUnknown(toks[j]);
    }
  }

  /** In an accepted line, bit i of the mask is set exactly when some token names modifier i. */
  lemma {:induction false} LineMaskBits(toks: seq<string>, i: nat)
    requires i < |Keywords| && LineMask(toks).Some?
    ensures LineMask(toks).value & ModBits[i] != 0 <==> exists j :: 0 <= j < |toks| && toks[j] == Keywords[i]
  {
    var bits := TokenBits(toks);
    OrBitsSome(bits);
    forall j | 0 <= j < |toks|
      ensures bits[j] in ModBits
      ensures bits[j] == ModBits[i] <==> toks[j] == Keywords[i]
    {
      ModifierBitExact(toks[j], i);
    }
    OrBitsExact(bits, i);
  }

  // ---------------------------------------------------------------------------
  // The first pass of parse_config_entry, on the line as a C string
  // ---------------------------------------------------------------------------

  /** The C string held in a buffer: its characters up to the first NUL. */
  function CString(s: string): (r: string)
    ensures |r| <= |s| && r == s[..|r|] && NUL !in r
    ensures |r| < |s| ==> s[|r|] == NUL
  {
    if s == [] || s[0] == NUL then [] else [s[0]] + CString(s[1..])
  }

  /** The index of the first space, or |s| if there is none. */
  function FirstSpace(s: string): (i: nat)
    ensures i <= |s| && (i < |s| ==> s[i] == ' ')
    ensures forall j :: 0 <= j < i ==> s[j] != ' '
  {
    if s == [] then 0 else if s[0] == ' ' then 0 else 1 + FirstSpace(s[1..])
  }

  /** The keycombo of a line: everything before its first space. */
  function ComboPart(line: string): string {
    line[..FirstSpace(line)]
  }

  /** The action of a line: everything after its first space, spaces and newline included. */
  function ActionPart(line: string): string {
    var i := FirstSpace(line);
    if i < |line| then line[i + 1..] else ""
  }

  /** The number of '+' in s. */
  function CountPlus(s: string): nat {
    if s == [] then 0 else CountPlus(s[..|s| - 1]) + if Last(s) == '+' then 1 else 0
  }

  /** s cut at every '+', as the first pass fills key_buf. */
  function SplitPlus(s: string): (toks: seq<string>)
    ensures |toks| > 0
  {
    if s == [] then [""]
    else
      var t := SplitPlus(s[..|s| - 1]);
      if Last(s) == '+' then t + [""] else t[..|t| - 1] + [Last(t) + [Last(s)]]
  }

  /**
   * SplitPlus cuts s into '+'-free pieces, one more than s has '+'
   * signs, and joining them with '+' gives s back.
   */
  lemma {:induction false} SplitPlusJoin(s: string)
    ensures JoinPlus(SplitPlus(s)) == s
    ensures |SplitPlus(s)| == CountPlus(s) + 1
    ensures forall j :: 0 <= j < |SplitPlus(s)| ==> '+' !in SplitPlus(s)[j]
    decreases |s|
  {
    if s != [] {
      var init := s[..|s| - 1];
      SplitPlusJoin(init);
      var t := SplitPlus(init);
      assert s == init + [Last(s)];
      if Last(s) == '+' {
        JoinPlusNew(t);
      } else {
        JoinPlusExtend(t, Last(s));
      }
    }
  }

  /** The number of '+' in a prefix is at most the number in the whole string. */
  lemma {:induction false} CountPlusPrefix(s: string, n: nat)
    requires n <= |s|
    ensures CountPlus(s[..n]) <= CountPlus(s)
    decreases |s|
  {
    if n < |s| {
      var init := s[..|s| - 1];
      CountPlusPrefix(init, n);
      assert init[..n] == s[..n];
      assert CountPlus(s) >= CountPlus(init);
    } else {
      assert s[..n] == s;
    }
  }

  /**
   * The first space ends the keycombo: the combo holds no space, and when
   * the line has a space the line is the combo, that space and the action.
   */
  lemma {:induction false} LineParts(line: string)
    ensures ' ' !in ComboPart(line)
    ensures ' ' in line ==> line == ComboPart(line) + " " + ActionPart(line)
    ensures ' ' !in line ==> ComboPart(line) == line && ActionPart(line) == ""
  {
    var i := FirstSpace(line);
    if ' ' in line {
      var j :| 0 <= j < |line| && line[j] == ' ';
      assert i <= j;
      assert line == line[..i] + " " + line[i + 1..];
    }
  }

  // ---------------------------------------------------------------------------
  // What parse_config_entry makes of one line
  // ---------------------------------------------------------------------------

  /** The first characters that make parse_config_entry skip a line. */
  const SkipChars: seq<char> := [' ', '#', '\n', '\t']

  /** The number of '+'-separated tokens the 8-row key_buf holds. */
  const MAX_TOKENS: nat := 8

  /** An accepted line: its modifier mask, its key's keysym and its action text. */
  datatype Entry = Entry(mod: bv8, keysym: Keysym, action: string)

  /**
   * parse_config_entry's reading of a line (the C string in `entry`),
   * `resolve` standing for xkb_keysym_from_name: None when it returns -1.
   */
  function ParseEntry(entry: string, resolve: string -> Keysym): Option<Entry> {
    var line := CString(entry);
    if line != [] && line[0] in SkipChars then None
    else if CountPlus(ComboPart(line)) >= MAX_TOKENS then None
    else
      var toks := SplitPlus(ComboPart(line));
      match LineMask(toks[..|toks| - 1])
      case None => None
      case Some(m) => Some(Entry(m, resolve(Last(toks)), ActionPart(line)))
  }

  /**
   * A line is accepted exactly when it does not start with a space, '#',
   * newline or tab, its combo has at most 8 tokens, and every token but
   * the last is a modifier name.
   */
  lemma {:induction false} ParseEntryAccepts(entry: string, resolve: string -> Keysym)
    ensures var line := CString(entry);
      var toks := SplitPlus(ComboPart(line));
      ParseEntry(entry, resolve).Some? <==>
        (line == [] || line[0] !in SkipChars) && |toks| <= MAX_TOKENS &&
        forall j :: 0 <= j < |toks| - 1 ==> toks[j] in Keywords
  {
    var line := CString(entry);
    var toks := SplitPlus(ComboPart(line));
    SplitPlusJoin(ComboPart(line));
    var mods := toks[..|toks| - 1];
    LineMaskSome(mods);
    assert forall j :: 0 <= j < |toks| - 1 ==> mods[j] == toks[j];
  }

  /** The entry of an accepted line: its modifier tokens' mask, its last token's keysym, its action. */
  lemma {:induction false} ParseEntryValue(entry: string, resolve: string -> Keysym)
    requires ParseEntry(entry, resolve).Some?
    ensures var line := CString(entry);
      var toks := SplitPlus(ComboPart(line));
      LineMask(toks[..|toks| - 1]).Some? &&
      ParseEntry(entry, resolve).value == Entry(LineMask(toks[..|toks| - 1]).value, resolve(Last(toks)), ActionPart(line))
  { }

  /** Some token before the last is w exactly when some token of the prefix without the last is. */
  lemma {:induction false} InitHas(toks: seq<string>, mods: seq<string>, w: string)
    requires |toks| > 0 && mods == toks[..|toks| - 1]
    ensures (exists j :: 0 <= j < |toks| - 1 && toks[j] == w) <==>
            (exists j :: 0 <= j < |mods| && mods[j] == w)
  {
    if exists j :: 0 <= j < |mods| && mods[j] == w {
      var j :| 0 <= j < |mods| && mods[j] == w;
      assert toks[j] == w;
    }
    if exists j :: 0 <= j < |toks| - 1 && toks[j] == w {
      var j :| 0 <= j < |toks| - 1 && toks[j] == w;
      assert mods[j] == w;
    }
  }

  /**
   * An accepted line carries the keysym of its last token, the text after
   * its first space, and bit i set exactly when a modifier token is
   * modifier i's name.
   */
  lemma {:induction false} ParseEntryFields(entry: string, resolve: string -> Keysym, i: nat)
    requires ParseEntry(entry, resolve).Some? && i < |Keywords|
    ensures var line := CString(entry);
      var toks := SplitPlus(ComboPart(line));
      var e := ParseEntry(entry, resolve).value;
      e.keysym == resolve(Last(toks)) && e.action == ActionPart(line) &&
      (e.mod & ModBits[i] != 0 <==> exists j :: 0 <= j < |toks| - 1 && toks[j] == Keywords[i])
  {
    var toks := SplitPlus(ComboPart(CString(entry)));
    ParseEntryValue(entry, resolve);
    LineMaskBits(toks[..|toks| - 1], i);
    InitHas(toks, toks[..|toks| - 1], Keywords[i]);
  }

  // ---------------------------------------------------------------------------
  // find_key_and_group: the (group, key) pairs whose levels carry a keysym
  // ---------------------------------------------------------------------------

  /** The symbols of every key: table[group][keycode] lists its levels' keysyms. */
  type Table = seq<seq<seq<Keysym>>>

  /** MAX_GROUPS rows of MAX_KEYCODE keys each. */
  ghost predicate Shaped(t: Table) {
    |t| == MAX_GROUPS && forall g :: 0 <= g < MAX_GROUPS ==> |t[g]| == MAX_KEYCODE
  }

  /** A group index and a keycode, before packing. */
  datatype Pair = Pair(group: nat, key: nat)

  /** One copy of p per level of syms that carries ks, in level order. */
  function LevelMatches(syms: seq<Keysym>, ks: Keysym, p: Pair): (r: seq<Pair>)
    ensures forall i :: 0 <= i < |r| ==> r[i] == p
    ensures forall q :: multiset(r)[q] == if q == p then multiset(syms)[ks] else 0
    decreases |syms|
  {
    if syms == [] then []
    else
      assert syms == syms[..|syms| - 1] + [Last(syms)];
      LevelMatches(syms[..|syms| - 1], ks, p) + if Last(syms) == ks then [p] else []
  }

  /** The matches of key k in groups 0 .. g-1, group by group. */
  function GroupMatches(t: Table, ks: Keysym, k: nat, g: nat): (r: seq<Pair>)
    requires Shaped(t) && k < MAX_KEYCODE && g <= MAX_GROUPS
    ensures forall i :: 0 <= i < |r| ==> r[i].key == k && r[i].group < g
    decreases g, ks
  {
    if g == 0 then []
    else GroupMatches(t, ks, k, g - 1) + LevelMatches(t[g - 1][k], ks, Pair(g - 1, k))
  }

  /** The matches of keys 0 .. n-1, key by key. */
  function Matches(t: Table, ks: Keysym, n: nat): (r: seq<Pair>)
    requires Shaped(t) && n <= MAX_KEYCODE
    ensures forall i :: 0 <= i < |r| ==> r[i].key < n && r[i].group < MAX_GROUPS
    decreases n, ks
  {
    if n == 0 then []
    else Matches(t, ks, n - 1) + GroupMatches(t, ks, n - 1, MAX_GROUPS)
  }

  /** Pairs in group order. */
  predicate GroupOrdered(r: seq<Pair>) {
    forall i, j :: 0 <= i < j < |r| ==> r[i].group <= r[j].group
  }

  /** Pairs in key order, and in group order within a key. */
  predicate KeyOrdered(r: seq<Pair>) {
    forall i, j :: 0 <= i < j < |r| ==>
      r[i].key < r[j].key || (r[i].key == r[j].key && r[i].group <= r[j].group)
  }

  /** The matches of one key come group by group. */
  lemma {:induction false} GroupMatchesOrdered(t: Table, ks: Keysym, k: nat, g: nat)
    requires Shaped(t) && k < MAX_KEYCODE && g <= MAX_GROUPS
    ensures GroupOrdered(GroupMatches(t, ks, k, g))
    decreases g
  {
    if g > 0 {
      GroupMatchesOrdered(t, ks, k, g - 1);
      var a := GroupMatches(t, ks, k, g - 1);
      var b := LevelMatches(t[g - 1][k], ks, Pair(g - 1, k));
      var r := a + b;
      assert GroupMatches(t, ks, k, g) == r;
      forall i, j | 0 <= i < j < |r|
        ensures r[i].group <= r[j].group
      {
        if |a| <= j {
          assert r[j] == b[j - |a|];
          if |a| <= i {
            assert r[i] == b[i - |a|];
          } else {
            assert r[i] == a[i];
          }
        } else {
          assert r[i] == a[i] && r[j] == a[j];
        }
      }
    }
  }

  /**
   * find_key_and_group's order: key by key, and within a key group by
   * group (levels of one key and group give equal pairs).
   */
  lemma {:induction false} MatchesOrdered(t: Table, ks: Keysym, n: nat)
    requires Shaped(t) && n <= MAX_KEYCODE
    ensures KeyOrdered(Matches(t, ks, n))
    decreases n
  {
    if n > 0 {
      MatchesOrdered(t, ks, n - 1);
      GroupMatchesOrdered(t, ks, n - 1, MAX_GROUPS);
      var a := Matches(t, ks, n - 1);
      var b := GroupMatches(t, ks, n - 1, MAX_GROUPS);
      var r := a + b;
      assert Matches(t, ks, n) == r;
      forall i, j | 0 <= i < j < |r|
        ensures r[i].key < r[j].key || (r[i].key == r[j].key && r[i].group <= r[j].group)
      {
        if |a| <= j {
          assert r[j] == b[j - |a|];
          if |a| <= i {
            assert r[i] == b[i - |a|];
          } else {
            assert r[i] == a[i];
          }
        } else {
          assert r[i] == a[i] && r[j] == a[j];
        }
      }
    }
  }

  /** Key k's groups below g contribute one match per level carrying ks. */
  lemma {:induction false} GroupMatchesCount(t: Table, ks: Keysym, k: nat, g: nat, q: Pair)
    requires Shaped(t) && k < MAX_KEYCODE && g <= MAX_GROUPS
    ensures multiset(GroupMatches(t, ks, k, g))[q] ==
              if q.key == k && q.group < g then multiset(t[q.group][k])[ks] else 0
    decreases g
  {
    if g > 0 {
      GroupMatchesCount(t, ks, k, g - 1, q);
      var prev, here := GroupMatches(t, ks, k, g - 1), LevelMatches(t[g - 1][k], ks, Pair(g - 1, k));
      assert multiset(GroupMatches(t, ks, k, g))[q] == multiset(prev)[q] + multiset(here)[q];
    }
  }

  /** Pair (g, k) is found exactly once per level of key k in group g carrying ks. */
  lemma {:induction false} MatchesCount(t: Table, ks: Keysym, n: nat, q: Pair)
    requires Shaped(t) && n <= MAX_KEYCODE
    ensures multiset(Matches(t, ks, n))[q] ==
              if q.key < n && q.group < MAX_GROUPS then multiset(t[q.group][q.key])[ks] else 0
    decreases n
  {
    if n > 0 {
      MatchesCount(t, ks, n - 1, q);
      GroupMatchesCount(t, ks, n - 1, MAX_GROUPS, q);
    }
  }

  /** Over the whole keyboard, pair (g, k) is found once per level of key k in group g carrying ks. */
  lemma {:induction false} MatchesCounts(t: Table, ks: Keysym)
    requires Shaped(t)
    ensures forall g, k :: 0 <= g < MAX_GROUPS && 0 <= k < MAX_KEYCODE ==>
              multiset(Matches(t, ks, MAX_KEYCODE))[Pair(g, k)] == multiset(t[g][k])[ks]
  {
    forall g, k | 0 <= g < MAX_GROUPS && 0 <= k < MAX_KEYCODE
      ensures multiset(Matches(t, ks, MAX_KEYCODE))[Pair(g, k)] == multiset(t[g][k])[ks]
    {
      MatchesCount(t, ks, MAX_KEYCODE, Pair(g, k));
    }
  }

  /** A pair with a group below MAX_GROUPS and a keycode below MAX_KEYCODE. */
  predicate InRange(p: Pair) {
    p.group < MAX_GROUPS && p.key < MAX_KEYCODE
  }

  /** A pair as find_key_and_group packs it: (group << 8) | key. */
  function PackPair(p: Pair): nat
    requires InRange(p)
  {
    Pack(p.group, p.key)
  }

  /** found_pairs as find_key_and_group writes them. */
  function PackPairs(ps: seq<Pair>): (r: seq<nat>)
    requires forall i :: 0 <= i < |ps| ==> InRange(ps[i])
    ensures |r| == |ps|
    decreases |ps|
  {
    if ps == [] then [] else PackPairs(ps[..|ps| - 1]) + [PackPair(Last(ps))]
  }

  /** Packing a concatenation packs each part. */
  lemma {:induction false} PackPairsAppend(a: seq<Pair>, b: seq<Pair>)
    requires forall i :: 0 <= i < |a| ==> InRange(a[i])
    requires forall i :: 0 <= i < |b| ==> InRange(b[i])
    ensures PackPairs(a + b) == PackPairs(a) + PackPairs(b)
    decreases |b|
  {
    if b != [] {
      var b' := b[..|b| - 1];
      assert (a + b)[..|a + b| - 1] == a + b';
      assert Last(a + b) == Last(b);
      PackPairsAppend(a, b');
      assert PackPairs(a + b) == PackPairs(a + b') + [PackPair(Last(b))];
      assert PackPairs(b) == PackPairs(b') + [PackPair(Last(b))];
    } else {
      assert a + b == a;
    }
  }

  /** Packing the matches of one more key appends the packed matches of that key. */
  lemma {:induction false} PackMatchesStep(t: Table, ks: Keysym, k: nat)
    requires Shaped(t) && k < MAX_KEYCODE
    ensures PackPairs(Matches(t, ks, k + 1)) ==
              PackPairs(Matches(t, ks, k)) + PackPairs(GroupMatches(t, ks, k, MAX_GROUPS))
  {
    PackPairsAppend(Matches(t, ks, k), GroupMatches(t, ks, k, MAX_GROUPS));
  }

  /** Packing decodes back: entry i of the packed pairs decodes to pair i. */
  lemma {:induction false} PackPairsDecode(ps: seq<Pair>, i: nat)
    requires forall i :: 0 <= i < |ps| ==> InRange(ps[i])
    requires i < |ps|
    ensures High(PackPairs(ps)[i]) == ps[i].group && Low(PackPairs(ps)[i]) == ps[i].key
    decreases |ps|
  {
    if i < |ps| - 1 {
      PackPairsDecode(ps[..|ps| - 1], i);
    } else {
      UnpackPair(ps[i]);
    }
  }

  /** Decoding a packed pair gives its group and key back. */
  lemma {:induction false} UnpackPair(p: Pair)
    requires InRange(p)
    ensures High(PackPair(p)) == p.group && Low(PackPair(p)) == p.key
  {
    PackRoundTrip(p.group, p.key);
  }

  // ---------------------------------------------------------------------------
  // What an accepted line adds to keylist and actionlist
  // ---------------------------------------------------------------------------

  /** One entry of a key's action table: a modifier mask and the command run for it. */
  datatype Item = Item(mod: bv16, action: string)

  /** n copies of an item. */
  function Copies(item: Item, n: nat): (r: seq<Item>)
    ensures |r| == n && forall i :: 0 <= i < n ==> r[i] == item
  {
    seq(n, _ => item)
  }

  /** The entries actionlist[g] gains from the pairs ps: (m << 8) | key for each pair in group g. */
  function RowAdds(ps: seq<Pair>, g: nat, m: bv8): seq<nat>
    requires forall i :: 0 <= i < |ps| ==> ps[i].key < MAX_KEYCODE
    decreases |ps|
  {
    if ps == [] then []
    else
      RowAdds(ps[..|ps| - 1], g, m) +
      if Last(ps).group == g then [Pack(m as nat, Last(ps).key)] else []
  }

  /** A prefix of the pairs adds no more to a row than all of them. */
  lemma {:induction false} RowAddsPrefix(ps: seq<Pair>, n: nat, g: nat, m: bv8)
    requires forall i :: 0 <= i < |ps| ==> ps[i].key < MAX_KEYCODE
    requires n <= |ps|
    ensures |RowAdds(ps[..n], g, m)| <= |RowAdds(ps, g, m)|
    decreases |ps|
  {
    if n < |ps| {
      var init := ps[..|ps| - 1];
      RowAddsPrefix(init, n, g, m);
      assert init[..n] == ps[..n];
      assert |RowAdds(ps, g, m)| >= |RowAdds(init, g, m)|;
    } else {
      assert ps[..n] == ps;
    }
  }

  /** An X call the daemon issues. */
  datatype XCall = GrabKey(modifier: nat, keycode: nat) | UngrabAll

  /** grab_all_keys on the entries of a row: each decoded into its modifier and keycode. */
  function Grabs(row: seq<nat>): (r: seq<XCall>)
    ensures |r| == |row|
    decreases |row|
  {
    if row == [] then [] else Grabs(row[..|row| - 1]) + [GrabKey(High(Last(row)), Low(Last(row)))]
  }

  /**
   * Grabbing what a line added to a group's row grabs, in order, the key of
   * every pair found in that group with exactly the line's modifiers.
   */
  lemma {:induction false} GrabsOfRowAdds(ps: seq<Pair>, g: nat, m: bv8)
    requires forall i :: 0 <= i < |ps| ==> ps[i].key < MAX_KEYCODE
    ensures Grabs(RowAdds(ps, g, m)) == GroupGrabs(ps, g, m)
    decreases |ps|
  {
    if ps != [] {
      var init := ps[..|ps| - 1];
      GrabsOfRowAdds(init, g, m);
      PackRoundTrip(m as nat, Last(ps).key);
      var a := RowAdds(init, g, m);
      if Last(ps).group == g {
        var v := Pack(m as nat, Last(ps).key);
        assert (a + [v])[..|a|] == a;
        assert Grabs(a + [v]) == Grabs(a) + [GrabKey(m as nat, Last(ps).key)];
      } else {
        assert a + [] == a;
      }
    }
  }

  /** The grabs a group should hold for the pairs ps under modifiers m: one per pair in that group. */
  function GroupGrabs(ps: seq<Pair>, g: nat, m: bv8): seq<XCall>
    requires forall i :: 0 <= i < |ps| ==> ps[i].key < MAX_KEYCODE
    decreases |ps|
  {
    if ps == [] then []
    else
      GroupGrabs(ps[..|ps| - 1], g, m) +
      if Last(ps).group == g then [GrabKey(m as nat, Last(ps).key)] else []
  }

  // ---------------------------------------------------------------------------
  // The key-press branch: the first action whose mask equals the state
  // ---------------------------------------------------------------------------

  /** The action of the first item whose modifiers are exactly m. */
  function FirstMatch(items: seq<Item>, m: bv16): Option<string>
    decreases |items|
  {
    if items == [] then None
    else if items[0].mod == m then Some(items[0].action)
    else FirstMatch(items[1..], m)
  }

  /**
   * FirstMatch finds the action of the earliest item whose modifiers are
   * m, and nothing exactly when no item has them.
   */
  lemma {:induction false} FirstMatchSpec(items: seq<Item>, m: bv16)
    ensures FirstMatch(items, m).None? <==> forall i :: 0 <= i < |items| ==> items[i].mod != m
    ensures FirstMatch(items, m).Some? ==>
              exists i :: 0 <= i < |items| && items[i].mod == m && FirstMatch(items, m).value == items[i].action &&
                forall j :: 0 <= j < i ==> items[j].mod != m
    decreases |items|
  {
    if items != [] && items[0].mod != m {
      var rest := items[1..];
      FirstMatchSpec(rest, m);
      assert forall i :: 1 <= i < |items| ==> items[i] == rest[i - 1];
      if FirstMatch(rest, m).Some? {
        var i :| 0 <= i < |rest| && rest[i].mod == m && FirstMatch(rest, m).value == rest[i].action &&
                 forall j :: 0 <= j < i ==> rest[j].mod != m;
        assert items[i + 1] == rest[i];
      }
    }
  }

  // ---------------------------------------------------------------------------
  // Helpers for the methods below
  // ---------------------------------------------------------------------------

  /** The mask of one more modifier token. */
  lemma {:induction false} LineMaskSnoc(toks: seq<string>, j: nat)
    requires j < |toks|
    ensures LineMask(toks[..j + 1]) ==
              match LineMask(toks[..j])
              case None => None
              case Some(m) => if ModifierBit(toks[j]) == UNKNOWN_MOD then None else Some(m | ModifierBit(toks[j]))
  {
    var b := TokenBits(toks[..j + 1]);
    assert b[..j] == TokenBits(toks[..j]);
  }

  /**
   * The first pass after reading line[..k]: before the first space the
   * tokens are line[..k] cut at '+' and the action is empty; after it the
   * tokens are the combo's and the action is what followed the space.
   */
  ghost predicate Scanned(line: string, k: nat, inAction: bool, toks: seq<string>, action: string) {
    k <= |line| && |toks| <= MAX_TOKENS &&
    (!inAction ==> k <= FirstSpace(line) && toks == SplitPlus(line[..k]) && action == "") &&
    (inAction ==> FirstSpace(line) < k && toks == SplitPlus(ComboPart(line)) && action == line[FirstSpace(line) + 1..k])
  }

  /** The first space switches the pass to the action. */
  lemma {:induction false} ScanSpace(line: string, k: nat, toks: seq<string>)
    requires Scanned(line, k, false, toks, "") && k < |line| && line[k] == ' '
    ensures Scanned(line, k + 1, true, toks, "")
  {
  }

  /** A '+' before the first space starts a new, empty token. */
  lemma {:induction false} ScanPlus(line: string, k: nat, toks: seq<string>)
    requires Scanned(line, k, false, toks, "") && k < |line| && line[k] == '+' && |toks| < MAX_TOKENS
    ensures Scanned(line, k + 1, false, toks + [""], "")
  {
    assert line[..k + 1][..k] == line[..k];
  }

  /** A '+' when all 8 tokens are in use means the combo has at least 8 '+'. */
  lemma {:induction false} ScanPlusFull(line: string, k: nat, toks: seq<string>)
    requires Scanned(line, k, false, toks, "") && k < |line| && line[k] == '+' && |toks| == MAX_TOKENS
    ensures CountPlus(ComboPart(line)) >= MAX_TOKENS
  {
    assert line[..k + 1][..k] == line[..k];
    SplitPlusJoin(line[..k + 1]);
    assert ComboPart(line)[..k + 1] == line[..k + 1];
    CountPlusPrefix(ComboPart(line), k + 1);
  }

  /** Any other character before the first space extends the current token. */
  lemma {:induction false} ScanChar(line: string, k: nat, toks: seq<string>)
    requires Scanned(line, k, false, toks, "") && k < |line| && line[k] != ' ' && line[k] != '+'
    ensures Scanned(line, k + 1, false, toks[..|toks| - 1] + [Last(toks) + [line[k]]], "")
  {
    assert line[..k + 1][..k] == line[..k];
  }

  /** After the first space every character goes to the action. */
  lemma {:induction false} ScanAction(line: string, k: nat, toks: seq<string>, action: string)
    requires Scanned(line, k, true, toks, action) && k < |line|
    ensures Scanned(line, k + 1, true, toks, action + [line[k]])
  {
  }

  /** At the end of the line the pass has the combo's tokens and the action. */
  lemma {:induction false} ScanDone(line: string, inAction: bool, toks: seq<string>, action: string)
    requires Scanned(line, |line|, inAction, toks, action)
    ensures CountPlus(ComboPart(line)) < MAX_TOKENS
    ensures toks == SplitPlus(ComboPart(line)) && action == ActionPart(line)
  {
    assert line[..|line|] == line;
    SplitPlusJoin(ComboPart(line));
  }

  /**
   * The first pass of parse_config_entry over the C string in `entry`:
   * up to the first space, '+' starts a new token and other characters
   * extend the current one; everything after that space is the action. A
   * ninth token makes it fail.
   */
  method SplitEntry(entry: string) returns (ok: bool, toks: seq<string>, action: string)
    ensures ok <==> CountPlus(ComboPart(CString(entry))) < MAX_TOKENS
    ensures ok ==> toks == SplitPlus(ComboPart(CString(entry))) && action == ActionPart(CString(entry))
  {
    ghost var line := CString(entry);
    var k := 0;
    var inAction := false;
    toks := [""];
    action := "";
    while k < |entry| && entry[k] != NUL
      invariant Scanned(line, k, inAction, toks, action)
    {
      var c := entry[k];
      assert c == line[k];
      if !inAction && c == ' ' {
        ScanSpace(line, k, toks);
        inAction := true;
      } else if !inAction && c == '+' {
        if |toks| == MAX_TOKENS {
          ScanPlusFull(line, k, toks);
          return false, toks, action;
        }
        ScanPlus(line, k, toks);
        toks := toks + [""];
      } else if !inAction {
        ScanChar(line, k, toks);
        toks := toks[..|toks| - 1] + [Last(toks) + [c]];
      } else {
        ScanAction(line, k, toks, action);
        action := action + [c];
      }
      k := k + 1;
    }
    ScanDone(line, inAction, toks, action);
    ok := true;
  }

  /** One more pair: its count goes up by one and its group's row gains its entry. */
  lemma {:induction false} PairStep(ms: seq<Pair>, j: nat, m: bv8)
    requires forall i :: 0 <= i < |ms| ==> ms[i].key < MAX_KEYCODE
    requires j < |ms|
    ensures forall q :: multiset(ms[..j + 1])[q] == multiset(ms[..j])[q] + if q == ms[j] then 1 else 0
    ensures forall g :: RowAdds(ms[..j + 1], g, m) ==
              RowAdds(ms[..j], g, m) + if ms[j].group == g then [Pack(m as nat, ms[j].key)] else []
    ensures multiset(ms[..j + 1])[ms[j]] <= multiset(ms)[ms[j]]
  {
    assert ms[..j + 1] == ms[..j] + [ms[j]];
    assert ms[..j + 1][..j] == ms[..j];
    assert ms == ms[..j + 1] + ms[j + 1..];
  }

  /** n copies and one more are n + 1 copies. */
  lemma {:induction false} CopiesSnoc(item: Item, n: nat)
    ensures Copies(item, n) + [item] == Copies(item, n + 1)
  {
  }

  /** The matches among the first l + 1 levels: those among the first l, then level l's. */
  lemma {:induction false} LevelMatchesSnoc(syms: seq<Keysym>, ks: Keysym, p: Pair, l: nat)
    requires l < |syms|
    ensures LevelMatches(syms[..l + 1], ks, p) == LevelMatches(syms[..l], ks, p) + if syms[l] == ks then [p] else []
  {
    var s := syms[..l + 1];
    assert s[..|s| - 1] == syms[..l] && Last(s) == syms[l];
  }

  /** The level loop of find_key_and_group for one key in one group, p being that (group, key). */
  method FindInLevels(syms: seq<Keysym>, ks: Keysym, p: Pair) returns (found: seq<nat>)
    requires InRange(p)
    ensures found == PackPairs(LevelMatches(syms, ks, p))
  {
    found := [];
    var l := 0;
    while l < |syms|
      invariant l <= |syms|
      invariant found == PackPairs(LevelMatches(syms[..l], ks, p))
    {
      ghost var before := LevelMatches(syms[..l], ks, p);
      LevelMatchesSnoc(syms, ks, p, l);
      if syms[l] == ks {
        PackPairsAppend(before, [p]);
        assert [p][..0] == [];
        found := found + [PackPair(p)];
      } else {
        assert before + [] == before;
      }
      l := l + 1;
    }
    assert syms[..l] == syms;
  }

  /** The symbols of a key and the actions bound to it: xhd_key_t of main.c. */
  datatype KeyEntry = KeyEntry(symbols: seq<Keysym>, actions: seq<Item>)

  /** keylist as a value: keys[group][keycode]. */
  type Keys = seq<seq<KeyEntry>>

  /** MAX_GROUPS rows of MAX_KEYCODE keys each. */
  ghost predicate KeysShaped(keys: Keys) {
    |keys| == MAX_GROUPS && forall g :: 0 <= g < MAX_GROUPS ==> |keys[g]| == MAX_KEYCODE
  }

  /** The key of p gains one more action, item. */
  function AddItem(keys: Keys, p: Pair, item: Item): (r: Keys)
    requires KeysShaped(keys) && InRange(p)
    ensures KeysShaped(r)
  {
    var e := keys[p.group][p.key];
    keys[p.group := keys[p.group][p.key := e.(actions := e.actions + [item])]]
  }

  /** The keys after the loop of parse_config_entry: the key of each pair of ps gains item, in order. */
  function AddItems(keys: Keys, ps: seq<Pair>, item: Item): (r: Keys)
    requires KeysShaped(keys) && forall i :: 0 <= i < |ps| ==> InRange(ps[i])
    ensures KeysShaped(r)
    decreases |ps|
  {
    if ps == [] then keys else AddItem(AddItems(keys, ps[..|ps| - 1], item), Last(ps), item)
  }

  /** Each key keeps its symbols and gains one copy of item per occurrence of its pair in ps. */
  lemma {:induction false} AddItemsCell(keys: Keys, ps: seq<Pair>, item: Item, g: nat, k: nat)
    requires KeysShaped(keys) && forall i :: 0 <= i < |ps| ==> InRange(ps[i])
    requires g < MAX_GROUPS && k < MAX_KEYCODE
    ensures AddItems(keys, ps, item)[g][k] ==
              keys[g][k].(actions := keys[g][k].actions + Copies(item, multiset(ps)[Pair(g, k)]))
    decreases |ps|
  {
    if ps != [] {
      var init := ps[..|ps| - 1];
      AddItemsCell(keys, init, item, g, k);
      assert ps == init + [Last(ps)];
      var a := keys[g][k].actions;
      var c := multiset(init)[Pair(g, k)];
      if Last(ps) == Pair(g, k) {
        CopiesSnoc(item, c);
        assert (a + Copies(item, c)) + [item] == a + Copies(item, c + 1);
      }
    }
  }

  /**
   * What a config line does to the tables: every key gains one copy of the
   * line's item per level carrying the line's keysym, and every group's row
   * gains the packed entries of the matches in that group, in order.
   */
  lemma {:induction false} LineEffect(t: Table, keys: Keys, ks: Keysym, item: Item)
    requires Shaped(t) && KeysShaped(keys)
    ensures forall g, k :: 0 <= g < MAX_GROUPS && 0 <= k < MAX_KEYCODE ==>
              AddItems(keys, Matches(t, ks, MAX_KEYCODE), item)[g][k] ==
                keys[g][k].(actions := keys[g][k].actions + Copies(item, multiset(t[g][k])[ks]))
  {
    var ms := Matches(t, ks, MAX_KEYCODE);
    MatchesCounts(t, ks);
    forall g, k | 0 <= g < MAX_GROUPS && 0 <= k < MAX_KEYCODE
      ensures AddItems(keys, ms, item)[g][k] ==
                keys[g][k].(actions := keys[g][k].actions + Copies(item, multiset(t[g][k])[ks]))
    {
      AddItemsCell(keys, ms, item, g, k);
    }
  }

  /** The rows after the loop of parse_config_entry: each pair's group gains (m << 8) | key, in order. */
  function AddEntries(rows: seq<seq<nat>>, ps: seq<Pair>, m: bv8): (r: seq<seq<nat>>)
    requires |rows| == MAX_GROUPS && forall i :: 0 <= i < |ps| ==> InRange(ps[i])
    ensures |r| == MAX_GROUPS
    decreases |ps|
  {
    if ps == [] then rows
    else
      var r := AddEntries(rows, ps[..|ps| - 1], m);
      var p := Last(ps);
      assert InRange(ps[|ps| - 1]);
      r[p.group := r[p.group] + [Pack(m as nat, p.key)]]
  }

  /** Row g gains exactly the entries of the pairs of ps in group g, in order. */
  lemma {:induction false} AddEntriesRow(rows: seq<seq<nat>>, ps: seq<Pair>, m: bv8, g: nat)
    requires |rows| == MAX_GROUPS && forall i :: 0 <= i < |ps| ==> InRange(ps[i])
    requires g < MAX_GROUPS
    ensures AddEntries(rows, ps, m)[g] == rows[g] + RowAdds(ps, g, m)
    decreases |ps|
  {
    if ps != [] {
      var init := ps[..|ps| - 1];
      AddEntriesRow(rows, init, m, g);
      var a := rows[g];
      var b := RowAdds(init, g, m);
      if Last(ps).group == g {
        var v := Pack(m as nat, Last(ps).key);
        assert (a + b) + [v] == a + (b + [v]);
      } else {
        assert b + [] == b;
      }
    }
  }

  /**
   * The parsing half of parse_config_entry: the first-character check,
   * the splitting pass over the line and the loop over the modifier
   * tokens; the keysym of the last token comes from resolve.
   */
  method ParseLine(entry: string, resolve: string -> Keysym) returns (parsed: Option<Entry>)
    ensures parsed == ParseEntry(entry, resolve)
  {
    ghost var line := CString(entry);
    var first := if |entry| > 0 then entry[0] else NUL;
    assert line != [] ==> line[0] == first;
    if first == ' ' || first == '#' || first == '\n' || first == '\t' {
      return None;
    }
    var ok, toks, action := SplitEntry(entry);
    if !ok {
      return None;
    }
    var n := |toks| - 1;
    var modifier: bv8 := 0;
    var j := 0;
    while j < n
      invariant j <= n && LineMask(toks[..j]) == Some(modifier)
    {
      var tmp := ModifierBit(toks[j]);
      LineMaskSnoc(toks, j);
      if tmp == UNKNOWN_MOD {
        ModifierBitUnknown(toks[j]);
        LineMaskSome(toks[..n]);
        assert toks[..n][j] == toks[j];
        return None;
      }
      modifier := modifier | tmp;
      j := j + 1;
    }
    var keysym := resolve(Last(toks));
    parsed := Some(Entry(modifier, keysym, action));
  }

  /**
   * Room for the j-th found pair: when the key and row room for all the
   * pairs is there at the start, the key and row of pair j still have a
   * free slot after the pairs before it, and pair j adds one copy of the
   * action to its key and one entry to its group's row.
   */
  lemma {:induction false} PairRoom(ms: seq<Pair>, j: nat, item: Item, m: bv8, k0: Keys, r0: seq<seq<nat>>)
    requires j < |ms|
    requires forall i :: 0 <= i < |ms| ==> ms[i].group < MAX_GROUPS && ms[i].key < MAX_KEYCODE
    requires KeysShaped(k0) && |r0| == MAX_GROUPS
    requires forall g, k :: 0 <= g < MAX_GROUPS && 0 <= k < MAX_KEYCODE ==>
               |k0[g][k].actions| + multiset(ms)[Pair(g, k)] <= KEY_SLOTS
    requires forall g :: 0 <= g < MAX_GROUPS ==> |r0[g]| + |RowAdds(ms, g, m)| < ACTION_ROW
    ensures var p, ks, rs := ms[j], AddItems(k0, ms[..j], item), AddEntries(r0, ms[..j], m);
      |ks[p.group][p.key].actions| < KEY_SLOTS && |rs[p.group]| + 1 < ACTION_ROW &&
      AddItems(k0, ms[..j + 1], item) == AddItem(ks, p, item) &&
      AddEntries(r0, ms[..j + 1], m) == rs[p.group := rs[p.group] + [Pack(m as nat, p.key)]]
  {
    var p := ms[j];
    assert ms[..j + 1][..j] == ms[..j];
    PairStep(ms, j, m);
    AddItemsCell(k0, ms[..j], item, p.group, p.key);
    AddEntriesRow(r0, ms[..j], m, p.group);
    RowAddsPrefix(ms, j + 1, p.group, m);
  }

  /**
   * The global state of main.c: keylist[group][keycode], actionlist[group]
   * (slot 0 the count, then packed (modifier << 8) | keycode entries) and
   * the group whose keys are grabbed. `symbols` is the keyboard map
   * parse_keymap read into keylist, `keys` the contents of keylist, and
   * rows[g] the entries of actionlist[g] after its count.
   */
  class Daemon {
    ghost const symbols: Table
    ghost var keys: Keys
    ghost var rows: seq<seq<nat>>
    var keylist: array2<KeyEntry>
    var actionlist: array2<int>
    var curGroup: nat

    /** keylist holds the symbols of the map and at most 16 actions per key. */
    ghost predicate KeysValid()
      reads this, keylist
    {
      Shaped(symbols) && KeysShaped(keys) &&
      keylist.Length0 == MAX_GROUPS && keylist.Length1 == MAX_KEYCODE &&
      forall g, k :: 0 <= g < MAX_GROUPS && 0 <= k < MAX_KEYCODE ==>
        keylist[g, k] == keys[g][k] && keys[g][k].symbols == symbols[g][k] &&
        |symbols[g][k]| <= KEY_SLOTS && |keys[g][k].actions| <= KEY_SLOTS
    }

    /** Slot 0 of actionlist[g] counts the entries of rows[g], which follow it. */
    ghost predicate RowsValid()
      reads this, actionlist
    {
      actionlist.Length0 == MAX_GROUPS && actionlist.Length1 == ACTION_ROW &&
      |rows| == MAX_GROUPS &&
      (forall g :: 0 <= g < MAX_GROUPS ==> |rows[g]| == actionlist[g, 0] < ACTION_ROW) &&
      (forall g, i :: 0 <= g < MAX_GROUPS && 0 <= i < |rows[g]| ==> actionlist[g, i + 1] == rows[g][i])
    }

    ghost predicate Valid()
      reads this, keylist, actionlist
    {
      KeysValid() && RowsValid() && keylist as object != actionlist as object && curGroup < MAX_GROUPS
    }

    /**
     * The lines of a config file fit in the fixed tables: at most 16 pairs
     * found, at most 16 actions per key, at most 255 entries per group.
     */
    ghost predicate Room(e: Entry)
      reads this
    {
      Shaped(symbols) && KeysShaped(keys) && |rows| == MAX_GROUPS &&
      var ms := Matches(symbols, e.keysym, MAX_KEYCODE);
      |ms| <= KEY_SLOTS &&
      (forall g, k :: 0 <= g < MAX_GROUPS && 0 <= k < MAX_KEYCODE ==>
         |keys[g][k].actions| + multiset(symbols[g][k])[e.keysym] <= KEY_SLOTS) &&
      (forall g :: 0 <= g < MAX_GROUPS ==> |rows[g]| + |RowAdds(ms, g, e.mod)| < ACTION_ROW)
    }

    /**
     * The state after parse_keymap: every key holds its symbols and no
     * action, every actionlist count is 0, and group 0 is current.
     */
    constructor (t: Table)
      requires Shaped(t)
      requires forall g, k :: 0 <= g < MAX_GROUPS && 0 <= k < MAX_KEYCODE ==> |t[g][k]| <= KEY_SLOTS
      ensures Valid() && symbols == t && curGroup == 0 && fresh(keylist) && fresh(actionlist)
      ensures forall g, k :: 0 <= g < MAX_GROUPS && 0 <= k < MAX_KEYCODE ==> keys[g][k].actions == []
      ensures rows == seq(MAX_GROUPS, _ => [])
    {
      symbols := t;
      keys := seq(MAX_GROUPS, g requires 0 <= g < MAX_GROUPS =>
        seq(MAX_KEYCODE, k requires 0 <= k < MAX_KEYCODE => KeyEntry(t[g][k], [])));
      keylist := new KeyEntry[MAX_GROUPS, MAX_KEYCODE]((g, k) requires 0 <= g < MAX_GROUPS && 0 <= k < MAX_KEYCODE =>
        KeyEntry(t[g][k], []));
      actionlist := new int[MAX_GROUPS, ACTION_ROW]((g, i) => 0);
      curGroup := 0;
      rows := seq(MAX_GROUPS, _ => []);
    }

    /**
     * find_key_and_group: the packed (group << 8) | key of every level
     * carrying ks, key by key, then group by group, then level by level.
     * The caller's array has 16 slots.
     */
    method FindKeyAndGroup(ks: Keysym) returns (found: seq<nat>)
      requires KeysValid() && |Matches(symbols, ks, MAX_KEYCODE)| <= KEY_SLOTS
      ensures found == PackPairs(Matches(symbols, ks, MAX_KEYCODE))
    {
      found := [];
      var k := 0;
      while k < MAX_KEYCODE
        invariant k <= MAX_KEYCODE && KeysValid()
        invariant found == PackPairs(Matches(symbols, ks, k))
      {
        var more := FindInKey(ks, k);
        PackMatchesStep(symbols, ks, k);
        found := found + more;
        k := k + 1;
      }
    }

    /** The group loop of find_key_and_group for key k. */
    method FindInKey(ks: Keysym, k: nat) returns (found: seq<nat>)
      requires KeysValid() && k < MAX_KEYCODE
      ensures found == PackPairs(GroupMatches(symbols, ks, k, MAX_GROUPS))
    {
      found := [];
      var g := 0;
      while g < MAX_GROUPS
        invariant g <= MAX_GROUPS
        invariant found == PackPairs(GroupMatches(symbols, ks, k, g))
      {
        var more := FindInLevels(keylist[g, k].symbols, ks, Pair(g, k));
        PackPairsAppend(GroupMatches(symbols, ks, k, g), LevelMatches(symbols[g][k], ks, Pair(g, k)));
        found := found + more;
        g := g + 1;
      }
    }

    /** keylist[g][k] gains an action: its modifiers and its command text. */
    method AddAction(g: nat, k: nat, item: Item)
      requires Valid() && g < MAX_GROUPS && k < MAX_KEYCODE && |keys[g][k].actions| < KEY_SLOTS
      modifies this, keylist
      ensures Valid() && keylist == old(keylist) && actionlist == old(actionlist) && curGroup == old(curGroup)
      ensures keys == AddItem(old(keys), Pair(g, k), item) && rows == old(rows)
    {
      var key := keylist[g, k];
      keylist[g, k] := key.(actions := key.actions + [item]);
      keys := AddItem(keys, Pair(g, k), item);
      forall g', k' | 0 <= g' < MAX_GROUPS && 0 <= k' < MAX_KEYCODE
        ensures keylist[g', k'] == keys[g'][k']
      {
        if g' != g || k' != k {
          assert keylist[g', k'] == old(keylist[g', k']);
        }
      }
      assert KeysValid();
    }

    /** actionlist[g] records one more entry v: the count goes up and v lands in the new slot. */
    method AddEntry(g: nat, v: nat)
      requires Valid() && g < MAX_GROUPS && |rows[g]| + 1 < ACTION_ROW
      modifies this, actionlist
      ensures Valid() && keylist == old(keylist) && actionlist == old(actionlist) && curGroup == old(curGroup)
      ensures rows == old(rows)[g := old(rows[g]) + [v]] && keys == old(keys)
    {
      var n := actionlist[g, 0] + 1;
      actionlist[g, 0] := n;
      actionlist[g, n] := v;
      rows := rows[g := rows[g] + [v]];
      forall g', i | 0 <= g' < MAX_GROUPS && 0 <= i < |rows[g']|
        ensures actionlist[g', i + 1] == rows[g'][i]
      {
        if g' != g || i + 1 < n {
          assert actionlist[g', i + 1] == old(actionlist[g', i + 1]);
        }
      }
      assert RowsValid();
    }

    /**
     * The loop of parse_config_entry over the found pairs: each pair's key
     * gains the line's action and each pair's group the packed entry.
     */
    method RecordPairs(found: seq<nat>, ghost ms: seq<Pair>, modifier: bv8, action: string)
      requires Valid() && |ms| <= KEY_SLOTS
      requires forall i :: 0 <= i < |ms| ==> InRange(ms[i])
      requires found == PackPairs(ms)
      requires forall g, k :: 0 <= g < MAX_GROUPS && 0 <= k < MAX_KEYCODE ==>
                 |keys[g][k].actions| + multiset(ms)[Pair(g, k)] <= KEY_SLOTS
      requires forall g :: 0 <= g < MAX_GROUPS ==> |rows[g]| + |RowAdds(ms, g, modifier)| < ACTION_ROW
      modifies this, keylist, actionlist
      ensures Valid() && keylist == old(keylist) && actionlist == old(actionlist) && curGroup == old(curGroup)
      ensures keys == AddItems(old(keys), ms, Item(modifier as bv16, action))
      ensures rows == AddEntries(old(rows), ms, modifier)
    {
      var item := Item(modifier as bv16, action);
      ghost var k0, r0 := keys, rows;
      var j := 0;
      while j < |found|
        invariant j <= |found| && Valid()
        invariant keylist == old(keylist) && actionlist == old(actionlist) && curGroup == old(curGroup)
        invariant keys == AddItems(k0, ms[..j], item)
        invariant rows == AddEntries(r0, ms[..j], modifier)
      {
        RecordPair(found, ms, j, item, modifier, k0, r0);
        j := j + 1;
      }
      assert ms[..j] == ms;
    }

    /**
     * One pass of the loop of parse_config_entry, for the j-th found pair,
     * starting from the keys k0 and rows r0 the loop began with.
     */
    method RecordPair(found: seq<nat>, ghost ms: seq<Pair>, j: nat, item: Item, modifier: bv8,
                      ghost k0: Keys, ghost r0: seq<seq<nat>>)
      requires Valid() && j < |ms|
      requires forall i :: 0 <= i < |ms| ==> InRange(ms[i])
      requires found == PackPairs(ms)
      requires KeysShaped(k0) && |r0| == MAX_GROUPS
      requires forall g, k :: 0 <= g < MAX_GROUPS && 0 <= k < MAX_KEYCODE ==>
                 |k0[g][k].actions| + multiset(ms)[Pair(g, k)] <= KEY_SLOTS
      requires forall g :: 0 <= g < MAX_GROUPS ==> |r0[g]| + |RowAdds(ms, g, modifier)| < ACTION_ROW
      requires keys == AddItems(k0, ms[..j], item) && rows == AddEntries(r0, ms[..j], modifier)
      modifies this, keylist, actionlist
      ensures Valid() && keylist == old(keylist) && actionlist == old(actionlist) && curGroup == old(curGroup)
      ensures keys == AddItems(k0, ms[..j + 1], item) && rows == AddEntries(r0, ms[..j + 1], modifier)
    {
      PackPairsDecode(ms, j);
      var key := Low(found[j]);
      var group := High(found[j]);
      assert ms[j] == Pair(group, key);
      PairRoom(ms, j, item, modifier, k0, r0);
      AddAction(group, key, item);
      AddEntry(group, Pack(modifier as nat, key));
    }

    /**
     * parse_config_entry: -1 with nothing changed for a rejected line;
     * otherwise 0, and the keys and rows gain the line's action and
     * entries for every level carrying its keysym, in find_key_and_group's
     * order.
     */
    method ParseConfigEntry(entry: string, resolve: string -> Keysym) returns (ret: int)
      requires Valid()
      requires ParseEntry(entry, resolve).Some? ==> Room(ParseEntry(entry, resolve).value)
      modifies this, keylist, actionlist
      ensures Valid() && keylist == old(keylist) && actionlist == old(actionlist) && curGroup == old(curGroup)
      ensures ret == if ParseEntry(entry, resolve).Some? then 0 else -1
      ensures ParseEntry(entry, resolve).None? ==> unchanged(keylist, actionlist) && keys == old(keys) && rows == old(rows)
      ensures ParseEntry(entry, resolve).Some? ==>
                var e := ParseEntry(entry, resolve).value;
                var ms := Matches(symbols, e.keysym, MAX_KEYCODE);
                keys == AddItems(old(keys), ms, Item(e.mod as bv16, e.action)) &&
                rows == AddEntries(old(rows), ms, e.mod)
    {
      var parsed := ParseLine(entry, resolve);
      if parsed.None? {
        return -1;
      }
      var e := parsed.value;
      ghost var ms := Matches(symbols, e.keysym, MAX_KEYCODE);
      MatchesCounts(symbols, e.keysym);
      var found := FindKeyAndGroup(e.keysym);
      RecordPairs(found, ms, e.mod, e.action);
      ret := 0;
    }

    /**
     * The key-press branch of main: the action of the first item of
     * keylist[cur_group][detail] whose modifiers equal the state masked
     * with 0x9FFF, or none.
     */
    method KeyPress(state: bv16, detail: Keycode) returns (cmd: Option<string>)
      requires Valid()
      ensures cmd == FirstMatch(keys[curGroup][detail].actions, state & STATE_MASK)
    {
      var actions := keylist[curGroup, detail].actions;
      var m := state & STATE_MASK;
      var i := 0;
      cmd := None;
      while i < |actions|
        invariant i <= |actions| && FirstMatch(actions, m) == FirstMatch(actions[i..], m)
      {
        if actions[i].mod == m {
          cmd := Some(actions[i].action);
          return;
        }
        assert actions[i..][1..] == actions[i + 1..];
        i := i + 1;
      }
    }

    /** grab_all_keys: one grab per entry of actionlist[g], decoded into modifier and keycode. */
    method GrabAllKeys(g: nat) returns (calls: seq<XCall>)
      requires RowsValid() && g < MAX_GROUPS
      ensures calls == Grabs(rows[g])
    {
      ghost var row := rows[g];
      var count := actionlist[g, 0];
      assert count == |row|;
      calls := [];
      var i := 1;
      while i <= count
        invariant 1 <= i <= count + 1 && calls == Grabs(row[..i - 1])
      {
        var v := actionlist[g, i];
        assert v == row[i - 1];
        assert row[..i][..i - 1] == row[..i - 1];
        calls := calls + [GrabKey(High(v), Low(v))];
        i := i + 1;
      }
      assert row[..|row|] == row;
    }

    /**
     * The state-notify branch of main: when the group changes, every key
     * is ungrabbed, the group becomes current and its keys are grabbed;
     * otherwise nothing happens.
     */
    method StateNotify(group: nat) returns (calls: seq<XCall>)
      requires Valid() && group < MAX_GROUPS
      modifies this
      ensures Valid() && keylist == old(keylist) && actionlist == old(actionlist) && rows == old(rows)
      ensures curGroup == group
      ensures calls == if old(curGroup) != group then [UngrabAll] + Grabs(rows[group]) else []
    {
      calls := [];
      if curGroup != group {
        calls := [UngrabAll];
        curGroup := group;
        var grabs := GrabAllKeys(group);
        calls := calls + grabs;
      }
    }
  }
}

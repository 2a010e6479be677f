/**
 * The recursive-descent config parser of xhd_config.h as functions over
 * the text of the config file. The parser state is a Cursor: the read
 * offset (buffer_index), how much of the text the block reads have
 * fetched (buffer_len, as an absolute offset), the feof flag and the line
 * counter. Every production maps a cursor to its result and the cursor
 * it leaves, exactly as the C functions advance parser_t; the methods of
 * Config.Parser are proved to follow these definitions.
 */
module ConfigSpec {
  import opened XhdTypes

  const MAXBUFLEN: nat := 512
  const MAXCOMBOLEN: nat := 8
  const MAXKEYLEN: nat := 40
  const MAXNAMELEN: nat := 40
  const MAXFLAGLEN: nat := 40
  const MAXCMDLEN: nat := 256

  const NUL: char := 0 as char

  /** xhd_config_is_whitespace: space, tab, newline and carriage return. */
  predicate IsWhitespace(c: char) {
    c == ' ' || c == '\t' || c == '\n' || c == '\r'
  }

  /** The character found at offset i of the input: the text, then NUL for ever. */
  function Ch(text: string, i: nat): char {
    if i < |text| then text[i] else NUL
  }

  /** parser_t, with the block buffer described by offsets into the whole text. */
  datatype Cursor = Cursor(pos: nat, loaded: nat, eof: bool, lines: nat)

  /** The parser as xhd_config_parse sets it up: nothing read yet. */
  const Start := Cursor(0, 0, false, 0)

  /** The read offset lies in the fetched part, and feof is only set once all of it is fetched. */
  predicate Fits(text: string, c: Cursor) {
    c.pos <= c.loaded <= |text| && (c.eof ==> c.loaded == |text|)
  }

  /**
   * xhd_config_read_to_buf: after end of file it fails and changes
   * nothing; otherwise fread fetches the next block of up to MAXBUFLEN
   * characters, and feof becomes true when that block comes back short.
   */
  function Refill(text: string, c: Cursor): (d: Cursor)
    requires Fits(text, c)
    ensures Fits(text, d) && d.pos == c.pos && d.lines == c.lines && d.loaded >= c.loaded
    ensures c.eof ==> d == c
    ensures !c.eof ==> d.eof == (|text| - c.loaded < MAXBUFLEN)
    ensures !c.eof && !d.eof ==> d.loaded == c.loaded + MAXBUFLEN
  {
    if c.eof then c
    else
      var n := if |text| - c.loaded < MAXBUFLEN then |text| - c.loaded else MAXBUFLEN;
      Cursor(c.pos, c.loaded + n, n < MAXBUFLEN, c.lines)
  }

  /** The refill that xhd_config_read_char and _get_char do once the buffer is used up. */
  function Fetch(text: string, c: Cursor): (d: Cursor)
    requires Fits(text, c)
    ensures Fits(text, d) && d.pos == c.pos && d.lines == c.lines
  {
    if c.pos >= c.loaded then Refill(text, c) else c
  }

  /**
   * xhd_config_get_char: the next character, without consuming it. Block
   * refills are invisible: it is the text's character at the read offset,
   * or NUL past the end.
   */
  function Peek(text: string, c: Cursor): (r: (char, Cursor))
    requires Fits(text, c)
    ensures r.0 == Ch(text, c.pos)
    ensures Fits(text, r.1) && r.1.pos == c.pos && r.1.lines == c.lines
  {
    var d := Fetch(text, c);
    (if d.pos < d.loaded then text[d.pos] else NUL, d)
  }

  /**
   * xhd_config_read_char: the next character, consumed; the line counter
   * grows by one exactly when it is a newline. Past the end it yields NUL
   * and consumes nothing.
   */
  function Read(text: string, c: Cursor): (r: (char, Cursor))
    requires Fits(text, c)
    ensures r.0 == Ch(text, c.pos) && Fits(text, r.1)
    ensures r.1.pos == if c.pos < |text| then c.pos + 1 else c.pos
    ensures r.1.lines == c.lines + if r.0 == '\n' then 1 else 0
  {
    var d := Fetch(text, c);
    if d.pos < d.loaded then
      (text[d.pos], d.(pos := d.pos + 1, lines := d.lines + if text[d.pos] == '\n' then 1 else 0))
    else
      (NUL, d)
  }

  /** The pushback `parser->buffer_index--`; the line counter is not wound back. */
  function Unread(c: Cursor): Cursor
    requires c.pos > 0
  {
    c.(pos := c.pos - 1)
  }

  /** xhd_config_expect: consume one character and report whether it is x. */
  function ExpectAt(text: string, c: Cursor, x: char): (r: (bool, Cursor))
    requires Fits(text, c)
    ensures r.0 <==> Ch(text, c.pos) == x
    ensures r.1 == Read(text, c).1
  {
    var (d, e) := Read(text, c);
    (d == x, e)
  }

  /**
   * xhd_config_trim_whitespace: peek, and consume while the peeked
   * character is whitespace. It stops on the first other character,
   * which is left unconsumed.
   */
  function Trim(text: string, c: Cursor): (d: Cursor)
    requires Fits(text, c)
    ensures Fits(text, d) && d.pos >= c.pos && !IsWhitespace(Ch(text, d.pos))
    ensures forall i :: c.pos <= i < d.pos ==> IsWhitespace(Ch(text, i))
    decreases |text| - c.pos
  {
    var (ch, d) := Peek(text, c);
    if IsWhitespace(ch) then Trim(text, Read(text, d).1) else d
  }

  /** ASCII lower case, as strncasecmp compares. */
  function Lower(c: char): char {
    if 'A' <= c <= 'Z' then (c as int + 32) as char else c
  }

  /** strncasecmp(tok, kw, |kw|) == 0 for a lower-case keyword kw. */
  predicate MatchesCI(tok: string, kw: string) {
    |tok| >= |kw| && forall i :: 0 <= i < |kw| ==> Lower(tok[i]) == kw[i]
  }

  /** The modifier keywords, in the order of their bits 0..7. */
  const Keywords: seq<string> := ["shift", "lock", "ctrl", "mod1", "mod2", "mod3", "mod4", "mod5"]
  const Bits: seq<Modifier> := [1, 2, 4, 8, 16, 32, 64, 128]

  /** (xhd_modifier_t)-1: what an unrecognised modifier parses to. */
  const NoModifier: Modifier := 0xFFFF

  /**
   * xhd_config_parse_modifier: the bit of the keyword that the token
   * starts with, ignoring case (so "Shifted" is shift); NoModifier if it
   * starts with none of them.
   */
  function ParseModifier(tok: string): (m: Modifier)
    ensures m == NoModifier || m in Bits
  {
    if MatchesCI(tok, "shift") then 1
    else if MatchesCI(tok, "lock") then 2
    else if MatchesCI(tok, "ctrl") then 4
    else if MatchesCI(tok, "mod1") then 8
    else if MatchesCI(tok, "mod2") then 16
    else if MatchesCI(tok, "mod3") then 32
    else if MatchesCI(tok, "mod4") then 64
    else if MatchesCI(tok, "mod5") then 128
    else NoModifier
  }

  /**
   * A token parses to the bit of keyword i exactly when it starts with
   * that keyword: the keywords are told apart by their first or, for
   * mod1..mod5, fourth letter, so the order of the tests does not matter.
   */
  lemma {:induction false} ParseModifierMatches(tok: string, i: nat)
    requires i < |Keywords|
    ensures ParseModifier(tok) == Bits[i] <==> MatchesCI(tok, Keywords[i])
  {
    if MatchesCI(tok, Keywords[i]) {
      assert Lower(tok[0]) == Keywords[i][0];
      if i >= 3 {
        assert Lower(tok[3]) == Keywords[i][3];
      }
    }
  }

  /** A token is NoModifier exactly when it starts with none of the keywords. */
  lemma {:induction false} ParseModifierUnknown(tok: string)
    ensures ParseModifier(tok) == NoModifier <==> forall i :: 0 <= i < |Keywords| ==> !MatchesCI(tok, Keywords[i])
  {
    forall i | 0 <= i < |Keywords|
      ensures MatchesCI(tok, Keywords[i]) ==> ParseModifier(tok) != NoModifier
    {
      ParseModifierMatches(tok, i);
    }
    if forall i :: 0 <= i < |Keywords| ==> !MatchesCI(tok, Keywords[i]) {
      assert !MatchesCI(tok, Keywords[0]) && !MatchesCI(tok, Keywords[1]) && !MatchesCI(tok, Keywords[2]);
      assert !MatchesCI(tok, Keywords[3]) && !MatchesCI(tok, Keywords[4]) && !MatchesCI(tok, Keywords[5]);
      assert !MatchesCI(tok, Keywords[6]) && !MatchesCI(tok, Keywords[7]);
    }
  }

  /** What a production yields: its value and the cursor it leaves, or failure (-1) and where it stopped. */
  datatype Parsed<T> = Ok(value: T, cur: Cursor) | Fail(cur: Cursor)

  /**
   * The loop of xhd_config_parse_flag with `buf` read so far: fail once
   * MAXFLAGLEN-1 characters are stored; stop before whitespace or '{',
   * pushing it back.
   */
  function FlagLoop(text: string, c: Cursor, buf: string): (r: Parsed<string>)
    requires Fits(text, c) && |buf| < MAXFLAGLEN
    ensures Fits(text, r.cur) && r.cur.pos >= c.pos
    decreases MAXFLAGLEN - |buf|
  {
    if |buf| >= MAXFLAGLEN - 1 then Fail(c)
    else
      var (ch, d) := Read(text, c);
      if IsWhitespace(ch) || ch == '{' then Ok(buf, Unread(d))
      else FlagLoop(text, d, buf + [ch])
  }

  /** xhd_config_parse_flag: the flag text after its "--". */
  function FlagAt(text: string, c: Cursor): (r: Parsed<string>)
    requires Fits(text, c)
    ensures Fits(text, r.cur) && r.cur.pos >= c.pos
  {
    FlagLoop(text, c, "")
  }

  /**
   * The loop of xhd_config_parse_command with `buf` stored so far: fail
   * once MAXCMDLEN-1 characters are stored; drop '\r'; stop after '\n',
   * which is consumed, or before '}', which is pushed back.
   */
  function CommandLoop(text: string, c: Cursor, buf: string): (r: Parsed<string>)
    requires Fits(text, c) && |buf| < MAXCMDLEN
    ensures Fits(text, r.cur) && r.cur.pos >= c.pos
    ensures r.Ok? && r.cur.pos == c.pos ==> Ch(text, c.pos) == '}'
    decreases MAXCMDLEN - |buf|, |text| - c.pos
  {
    if |buf| >= MAXCMDLEN - 1 then Fail(c)
    else
      var (ch, d) := Read(text, c);
      if ch == '\r' then CommandLoop(text, d, buf)
      else if ch == '\n' then Ok(buf, d)
      else if ch == '}' then Ok(buf, Unread(d))
      else CommandLoop(text, d, buf + [ch])
  }

  /** xhd_config_parse_command: one command line. */
  function CommandAt(text: string, c: Cursor): (r: Parsed<string>)
    requires Fits(text, c)
    ensures Fits(text, r.cur) && r.cur.pos >= c.pos
    ensures r.Ok? && r.cur.pos == c.pos ==> Ch(text, c.pos) == '}'
  {
    CommandLoop(text, c, "")
  }

  /**
   * The loop of xhd_config_parse_mode_name with `buf` stored so far: fail
   * once MAXNAMELEN-1 characters are stored; skip whitespace anywhere;
   * stop before '{', pushing it back.
   */
  function NameLoop(text: string, c: Cursor, buf: string): (r: Parsed<string>)
    requires Fits(text, c) && |buf| < MAXNAMELEN
    ensures Fits(text, r.cur) && r.cur.pos >= c.pos
    decreases |text| - c.pos, MAXNAMELEN - |buf|
  {
    if |buf| >= MAXNAMELEN - 1 then Fail(c)
    else
      var (ch, d) := Read(text, c);
      if IsWhitespace(ch) then NameLoop(text, d, buf)
      else if ch == '{' then Ok(buf, Unread(d))
      else NameLoop(text, d, buf + [ch])
  }

  /** xhd_config_parse_mode_name. */
  function NameAt(text: string, c: Cursor): (r: Parsed<string>)
    requires Fits(text, c)
    ensures Fits(text, r.cur) && r.cur.pos >= c.pos
  {
    NameLoop(text, c, "")
  }

  function Last<T>(s: seq<T>): T
    requires |s| > 0
  {
    s[|s| - 1]
  }

  /** The modifier each token parses to. */
  function Mods(toks: seq<string>): (bits: seq<Modifier>)
    ensures |bits| == |toks|
  {
    seq(|toks|, i requires 0 <= i < |toks| => ParseModifier(toks[i]))
  }

  /** The OR of two masks. */
  function MaskOr(a: Modifier, b: Modifier): Modifier {
    a | b
  }

  /**
   * The modifier loop of xhd_config_parse_keycombo on the parsed tokens:
   * the OR of the bits, or None as soon as one is NoModifier.
   */
  function MaskOf(bits: seq<Modifier>): (r: Option<Modifier>)
    decreases |bits|
  {
    if bits == [] then Some(0)
    else
      match MaskOf(bits[..|bits| - 1])
      case None => None
      case Some(m) => if Last(bits) == NoModifier then None else Some(MaskOr(m, Last(bits)))
  }

  /** The mask of one more bit. */
  lemma {:induction false} MaskOfStep(bits: seq<Modifier>, i: nat, m: Modifier)
    requires i < |bits| && MaskOf(bits[..i]) == Some(m) && bits[i] != NoModifier
    ensures MaskOf(bits[..i + 1]) == Some(MaskOr(m, bits[i]))
  {
    assert bits[..i + 1][..i] == bits[..i];
  }

  /** The mask of the modifier tokens of a keycombo. */
  function ModMask(toks: seq<string>): Option<Modifier>
  {
    MaskOf(Mods(toks))
  }

  /** The mask exists exactly when no token is NoModifier. */
  lemma {:induction false} MaskOfSome(bits: seq<Modifier>)
    ensures MaskOf(bits).Some? <==> forall i :: 0 <= i < |bits| ==> bits[i] != NoModifier
    decreases |bits|
  {
    if bits != [] {
      var init := bits[..|bits| - 1];
      MaskOfSome(init);
      assert forall i :: 0 <= i < |init| ==> init[i] == bits[i];
    }
  }

  /** A keycombo's modifiers are accepted exactly when every token is a modifier keyword. */
  lemma {:induction false} ModMaskSome(toks: seq<string>)
    ensures ModMask(toks).Some? <==> forall i :: 0 <= i < |toks| ==> ParseModifier(toks[i]) != NoModifier
  {
    var bits := Mods(toks);
    MaskOfSome(bits);
    assert forall i :: 0 <= i < |toks| ==> bits[i] == ParseModifier(toks[i]);
  }

  /** ((xkb_keysym_t)-1): what xhd_config_parse_keysym yields for an unknown name. */
  const UNRESOLVED: Keysym := 0xFFFF_FFFF

  /**
   * xhd_config_parse_keysym, with xkb_keysym_from_name given as `resolve`
   * (0 meaning "no such keysym"). An unknown name is not an error.
   */
  function KeysymOf(resolve: string -> Keysym, name: string): (s: Keysym)
    ensures resolve(name) == 0 ==> s == UNRESOLVED
    ensures resolve(name) != 0 ==> s == resolve(name)
  {
    if resolve(name) == 0 then UNRESOLVED else resolve(name)
  }

  /**
   * How the splitting loop of xhd_config_parse_keycombo ends: with its
   * tokens, on a failure, or on the ninth '+' that the source writes
   * past key_buf for.
   */
  datatype Split =
    | Tokens(toks: seq<string>, cur: Cursor)
    | SplitFail(cur: Cursor)
    | SplitOverflow(cur: Cursor)

  /**
   * The splitting loop of xhd_config_parse_keycombo; the last of `toks`
   * is the token being read (key_index is |toks|-1, chr_index its
   * length). It fails once a token holds MAXKEYLEN-1 characters; skips
   * whitespace; starts a new token at '+'; and stops before '-' or '{',
   * pushing it back.
   */
  function SplitLoop(text: string, c: Cursor, toks: seq<string>): (r: Split)
    requires Fits(text, c) && 0 < |toks| <= MAXCOMBOLEN && |Last(toks)| < MAXKEYLEN
    ensures Fits(text, r.cur) && r.cur.pos >= c.pos
    ensures r.Tokens? ==> 0 < |r.toks| <= MAXCOMBOLEN
    decreases |text| - c.pos, MAXKEYLEN - |Last(toks)|
  {
    if |Last(toks)| >= MAXKEYLEN - 1 then SplitFail(c)
    else
      var (ch, d) := Read(text, c);
      if IsWhitespace(ch) then SplitLoop(text, d, toks)
      else if ch == '+' then
        if |toks| >= MAXCOMBOLEN then SplitOverflow(d)
        else SplitLoop(text, d, toks + [""])
      else if ch == '-' || ch == '{' then Tokens(toks, Unread(d))
      else SplitLoop(text, d, toks[..|toks| - 1] + [Last(toks) + [ch]])
  }

  /** What xhd_config_parse_keycombo ends with. */
  datatype Combo =
    | ComboOk(mod: Modifier, key: string, keysym: Keysym, cur: Cursor)
    | ComboFail(cur: Cursor)
    | ComboOverflow(cur: Cursor)

  /**
   * xhd_config_parse_keycombo: split the combo, then every token but the
   * last must be a modifier, and the last one is the key.
   */
  function KeycomboAt(text: string, c: Cursor, resolve: string -> Keysym): (r: Combo)
    requires Fits(text, c)
    ensures Fits(text, r.cur) && r.cur.pos >= c.pos
  {
    match SplitLoop(text, c, [""])
    case SplitFail(e) => ComboFail(e)
    case SplitOverflow(e) => ComboOverflow(e)
    case Tokens(toks, e) =>
      match ModMask(toks[..|toks| - 1])
      case None => ComboFail(e)
      case Some(m) => ComboOk(m, Last(toks), KeysymOf(resolve, Last(toks)), e)
  }

  /**
   * The loop of xhd_config_parse_flag_list, entered after whitespace:
   * until the next character is '{', each flag is "--" and a flag text,
   * followed by whitespace.
   */
  function FlagListLoop(text: string, c: Cursor, flags: seq<string>): (r: Parsed<seq<string>>)
    requires Fits(text, c)
    ensures Fits(text, r.cur) && r.cur.pos >= c.pos
    decreases |text| - c.pos
  {
    var (ch, d) := Peek(text, c);
    if ch == '{' then Ok(flags, d)
    else
      var (ok1, d1) := ExpectAt(text, d, '-');
      if !ok1 then Fail(d1)
      else
        var (ok2, d2) := ExpectAt(text, d1, '-');
        if !ok2 then Fail(d2)
        else
          match FlagAt(text, d2)
          case Fail(e) => Fail(e)
          case Ok(f, e) => FlagListLoop(text, Trim(text, e), flags + [f])
  }

  /** xhd_config_parse_flag_list. */
  function FlagListAt(text: string, c: Cursor): (r: Parsed<seq<string>>)
    requires Fits(text, c)
    ensures Fits(text, r.cur) && r.cur.pos >= c.pos
  {
    FlagListLoop(text, Trim(text, c), [])
  }

  /** The loop of xhd_config_parse_command_list: commands until the next character is '}'. */
  function CommandListLoop(text: string, c: Cursor, cmds: seq<string>): (r: Parsed<seq<string>>)
    requires Fits(text, c)
    ensures Fits(text, r.cur) && r.cur.pos >= c.pos
    decreases |text| - c.pos
  {
    var (ch, d) := Peek(text, c);
    if ch == '}' then Ok(cmds, d)
    else
      match CommandAt(text, d)
      case Fail(e) => Fail(e)
      case Ok(cmd, e) => CommandListLoop(text, Trim(text, e), cmds + [cmd])
  }

  /** xhd_config_parse_command_list. */
  function CommandListAt(text: string, c: Cursor): (r: Parsed<seq<string>>)
    requires Fits(text, c)
    ensures Fits(text, r.cur) && r.cur.pos >= c.pos
  {
    CommandListLoop(text, Trim(text, c), [])
  }

  /** The character just before d is a '}': where a hotkey or mode entry ends. */
  predicate Closed(text: string, d: Cursor) {
    0 < d.pos <= |text| && text[d.pos - 1] == '}'
  }

  /** A '}' that xhd_config_expect accepts is consumed: the cursor moves one past it. */
  lemma {:induction false} ExpectClose(text: string, c: Cursor)
    requires Fits(text, c) && ExpectAt(text, c, '}').0
    ensures Closed(text, ExpectAt(text, c, '}').1) && ExpectAt(text, c, '}').1.pos == c.pos + 1
  {
    assert Ch(text, c.pos) == '}';
  }

  /** A parsed hotkey entry: what the productions under it print. */
  datatype Hotkey = Hotkey(mod: Modifier, key: string, keysym: Keysym, flags: seq<string>, cmds: seq<string>)

  /**
   * xhd_config_parse_hotkey_entry: keycombo, flag list, '{', command
   * list, '}'; the first step that fails makes the entry fail. A ninth
   * '+' in the keycombo fails the entry too.
   */
  function HotkeyEntryAt(text: string, c: Cursor, resolve: string -> Keysym): (r: Parsed<Hotkey>)
    requires Fits(text, c)
    ensures Fits(text, r.cur) && r.cur.pos >= c.pos
    ensures r.Ok? ==> c.pos < r.cur.pos && Closed(text, r.cur)
  {
    match KeycomboAt(text, c, resolve)
    case ComboFail(e) => Fail(e)
    case ComboOverflow(e) => Fail(e)
    case ComboOk(m, key, sym, e) => HotkeyBodyAt(text, e, m, key, sym)
  }

  /** The rest of xhd_config_parse_hotkey_entry once the keycombo is read. */
  function HotkeyBodyAt(text: string, c: Cursor, m: Modifier, key: string, sym: Keysym): (r: Parsed<Hotkey>)
    requires Fits(text, c)
    ensures Fits(text, r.cur) && r.cur.pos >= c.pos
    ensures r.Ok? ==> c.pos < r.cur.pos && Closed(text, r.cur)
  {
    match FlagListAt(text, c)
    case Fail(e1) => Fail(e1)
    case Ok(flags, e1) =>
      var (ok2, e2) := ExpectAt(text, e1, '{');
      if !ok2 then Fail(e2)
      else HotkeyCommandsAt(text, e2, m, key, sym, flags)
  }

  /** The end of xhd_config_parse_hotkey_entry once the '{' is read: command list, '}'. */
  function HotkeyCommandsAt(text: string, c: Cursor, m: Modifier, key: string, sym: Keysym, flags: seq<string>): (r: Parsed<Hotkey>)
    requires Fits(text, c)
    ensures Fits(text, r.cur) && r.cur.pos >= c.pos
    ensures r.Ok? ==> c.pos < r.cur.pos && Closed(text, r.cur) &&
                      r.value == Hotkey(m, key, sym, flags, r.value.cmds)
  {
    match CommandListAt(text, c)
    case Fail(e) => Fail(e)
    case Ok(cmds, e) =>
      var (ok, d) := ExpectAt(text, e, '}');
      if !ok then Fail(d)
      else ExpectClose(text, e); Ok(Hotkey(m, key, sym, flags, cmds), d)
  }

  /** The loop of xhd_config_parse_hotkey_list: hotkey entries until the next character is '}'. */
  function HotkeyListLoop(text: string, c: Cursor, keys: seq<Hotkey>, resolve: string -> Keysym): (r: Parsed<seq<Hotkey>>)
    requires Fits(text, c)
    ensures Fits(text, r.cur) && r.cur.pos >= c.pos
    decreases |text| - c.pos
  {
    var (ch, d) := Peek(text, c);
    if ch == '}' then Ok(keys, d)
    else
      match HotkeyEntryAt(text, d, resolve)
      case Fail(e) => Fail(e)
      case Ok(k, e) => HotkeyListLoop(text, Trim(text, e), keys + [k], resolve)
  }

  /** xhd_config_parse_hotkey_list. */
  function HotkeyListAt(text: string, c: Cursor, resolve: string -> Keysym): (r: Parsed<seq<Hotkey>>)
    requires Fits(text, c)
    ensures Fits(text, r.cur) && r.cur.pos >= c.pos
  {
    HotkeyListLoop(text, Trim(text, c), [], resolve)
  }

  /** A parsed mode entry. */
  datatype ModeEntry = ModeEntry(name: string, hotkeys: seq<Hotkey>)

  /** xhd_config_parse_mode_entry: name, '{', hotkey list, '}'. */
  function ModeEntryAt(text: string, c: Cursor, resolve: string -> Keysym): (r: Parsed<ModeEntry>)
    requires Fits(text, c)
    ensures Fits(text, r.cur) && r.cur.pos >= c.pos
    ensures r.Ok? ==> c.pos < r.cur.pos && Closed(text, r.cur)
  {
    match NameAt(text, c)
    case Fail(e) => Fail(e)
    case Ok(name, e) =>
      var (ok1, e1) := ExpectAt(text, e, '{');
      if !ok1 then Fail(e1)
      else ModeBodyAt(text, e1, name, resolve)
  }

  /** The part of xhd_config_parse_mode_entry after the '{': hotkey list, '}'. */
  function ModeBodyAt(text: string, c: Cursor, name: string, resolve: string -> Keysym): (r: Parsed<ModeEntry>)
    requires Fits(text, c)
    ensures Fits(text, r.cur) && r.cur.pos >= c.pos
    ensures r.Ok? ==> c.pos < r.cur.pos && Closed(text, r.cur) && r.value.name == name
  {
    match HotkeyListAt(text, c, resolve)
    case Fail(e) => Fail(e)
    case Ok(keys, e) =>
      var (ok, d) := ExpectAt(text, e, '}');
      if !ok then Fail(d)
      else ExpectClose(text, e); Ok(ModeEntry(name, keys), d)
  }

  /**
   * The loop of xhd_config_parse_config_file as written: while feof is
   * not yet set, skip whitespace and parse a mode entry.
   */
  function ConfigLoop(text: string, c: Cursor, modes: seq<ModeEntry>, resolve: string -> Keysym): (r: Parsed<seq<ModeEntry>>)
    requires Fits(text, c)
    ensures Fits(text, r.cur) && r.cur.pos >= c.pos
    decreases |text| - c.pos
  {
    if c.eof then Ok(modes, c)
    else
      match ModeEntryAt(text, Trim(text, c), resolve)
      case Fail(e) => Fail(e)
      case Ok(m, e) => ConfigLoop(text, e, modes + [m], resolve)
  }

  /** xhd_config_parse_config_file as written, on a freshly opened file. */
  function ConfigFileAt(text: string, resolve: string -> Keysym): (r: Parsed<seq<ModeEntry>>)
    ensures Fits(text, r.cur)
  {
    ConfigLoop(text, Start, [], resolve)
  }

  /**
   * The loop of xhd_config_parse_config_file as intended: skip
   * whitespace, stop at the end of the input, otherwise parse a mode entry.
   */
  function ConfigLoopIntended(text: string, c: Cursor, modes: seq<ModeEntry>, resolve: string -> Keysym): (r: Parsed<seq<ModeEntry>>)
    requires Fits(text, c)
    ensures Fits(text, r.cur) && r.cur.pos >= c.pos
    ensures r.Ok? ==> Ch(text, r.cur.pos) == NUL
    decreases |text| - c.pos
  {
    var (ch, d) := Peek(text, Trim(text, c));
    if ch == NUL then Ok(modes, d)
    else
      match ModeEntryAt(text, d, resolve)
      case Fail(e) => Fail(e)
      case Ok(m, e) => ConfigLoopIntended(text, e, modes + [m], resolve)
  }

  /** xhd_config_parse_config_file as intended: every mode entry up to the end of the input. */
  function ConfigFileIntended(text: string, resolve: string -> Keysym): (r: Parsed<seq<ModeEntry>>)
    ensures Fits(text, r.cur)
    ensures r.Ok? ==> r.cur.pos == |text| || text[r.cur.pos] == NUL
  {
    ConfigLoopIntended(text, Start, [], resolve)
  }
}

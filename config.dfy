/**
 * The parser object of xhd_config.h: a cursor over the config text that
 * the read functions advance and the productions push back. Each method
 * is proved to leave the parser, and return the value, that the matching
 * definition of ConfigSpec gives.
 */
module Config {
  import opened XhdTypes
  import opened ConfigSpec

  /**
   * parser_t. `pos` is buffer_index and `loaded` is buffer_len, both as
   * offsets into the whole text rather than into the current block;
   * `eof` is feof(config) and `lines` is lines_read.
   */
  class Parser {
    const text: string
    /** xkb_keysym_from_name, with 0 for "no such keysym". */
    const resolve: string -> Keysym
    var pos: nat
    var loaded: nat
    var eof: bool
    var lines: nat

    function Cur(): Cursor
      reads this
    {
      Cursor(pos, loaded, eof, lines)
    }

    ghost predicate Valid()
      reads this
    {
      Fits(text, Cur())
    }

    /** The parser that xhd_config_parse sets up on an opened file. */
    constructor (text: string, resolve: string -> Keysym)
      ensures Valid() && Cur() == Start
      ensures this.text == text && this.resolve == resolve
    {
      this.text := text;
      this.resolve := resolve;
      pos := 0;
      loaded := 0;
      eof := false;
      lines := 0;
    }

    /**
     * xhd_config_read_to_buf: -1 once feof is set, otherwise the next
     * block is fetched and 0 returned (the source falls off the end of
     * the function there without a return value).
     */
    method ReadToBuf() returns (ret: int)
      requires Valid()
      modifies this
      ensures Valid() && Cur() == Refill(text, old(Cur()))
      ensures ret == if old(eof) then -1 else 0
    {
      if eof {
        return -1;
      }
      var n := if |text| - loaded < MAXBUFLEN then |text| - loaded else MAXBUFLEN;
      loaded := loaded + n;
      eof := n < MAXBUFLEN;
      ret := 0;
    }

    /** xhd_config_read_char. */
    method ReadChar() returns (c: char)
      requires Valid()
      modifies this
      ensures Valid() && (c, Cur()) == Read(text, old(Cur()))
    {
      if pos >= loaded {
        var r := ReadToBuf();
        if r != 0 {
          return NUL;
        }
      }
      if pos < loaded {
        c := text[pos];
        pos := pos + 1;
        if c == '\n' {
          lines := lines + 1;
        }
      } else {
        // the NUL that read_to_buf stores after an empty block
        c := NUL;
      }
    }

    /** xhd_config_get_char. */
    method GetChar() returns (c: char)
      requires Valid()
      modifies this
      ensures Valid() && (c, Cur()) == Peek(text, old(Cur()))
    {
      if pos >= loaded {
        var r := ReadToBuf();
        if r != 0 {
          return NUL;
        }
      }
      c := if pos < loaded then text[pos] else NUL;
    }

    /** xhd_config_expect: 0 if the consumed character is x, -1 otherwise. */
    method Expect(x: char) returns (ret: int)
      requires Valid()
      modifies this
      ensures Valid()
      ensures var r := ExpectAt(text, old(Cur()), x);
        Cur() == r.1 && ret == if r.0 then 0 else -1
    {
      var d := ReadChar();
      ret := if d == x then 0 else -1;
    }

    /** xhd_config_trim_whitespace. */
    method TrimWhitespace()
      requires Valid()
      modifies this
      ensures Valid() && Cur() == Trim(text, old(Cur()))
    {
      while true
        invariant Valid() && Trim(text, Cur()) == Trim(text, old(Cur()))
        decreases |text| - pos
      {
        var c := GetChar();
        if !IsWhitespace(c) {
          return;
        }
        c := ReadChar();
      }
    }

    /** xhd_config_parse_flag; returns the flag text it prints. */
    method ParseFlag() returns (ret: int, flag: string)
      requires Valid()
      modifies this
      ensures Valid()
      ensures var r := FlagAt(text, old(Cur()));
        Cur() == r.cur && ret == (if r.Ok? then 0 else -1) && (r.Ok? ==> flag == r.value)
    {
      flag := "";
      while true
        invariant Valid() && |flag| < MAXFLAGLEN
        invariant FlagLoop(text, Cur(), flag) == FlagAt(text, old(Cur()))
        decreases MAXFLAGLEN - |flag|
      {
        if |flag| >= MAXFLAGLEN - 1 {
          return -1, flag;
        }
        var c := ReadChar();
        if IsWhitespace(c) || c == '{' {
          pos := pos - 1;
          return 0, flag;
        }
        flag := flag + [c];
      }
    }

    /** xhd_config_parse_command; returns the command text it prints. */
    method ParseCommand() returns (ret: int, cmd: string)
      requires Valid()
      modifies this
      ensures Valid()
      ensures var r := CommandAt(text, old(Cur()));
        Cur() == r.cur && ret == (if r.Ok? then 0 else -1) && (r.Ok? ==> cmd == r.value)
    {
      cmd := "";
      while true
        invariant Valid() && |cmd| < MAXCMDLEN
        invariant CommandLoop(text, Cur(), cmd) == CommandAt(text, old(Cur()))
        decreases MAXCMDLEN - |cmd|, |text| - pos
      {
        if |cmd| >= MAXCMDLEN - 1 {
          return -1, cmd;
        }
        var c := ReadChar();
        if c == '\r' {
          continue;
        } else if c == '\n' {
          return 0, cmd;
        } else if c == '}' {
          pos := pos - 1;
          return 0, cmd;
        }
        cmd := cmd + [c];
      }
    }

    /** xhd_config_parse_mode_name; returns the name it prints. */
    method ParseModeName() returns (ret: int, name: string)
      requires Valid()
      modifies this
      ensures Valid()
      ensures var r := NameAt(text, old(Cur()));
        Cur() == r.cur && ret == (if r.Ok? then 0 else -1) && (r.Ok? ==> name == r.value)
    {
      name := "";
      while true
        invariant Valid() && |name| < MAXNAMELEN
        invariant NameLoop(text, Cur(), name) == NameAt(text, old(Cur()))
        decreases |text| - pos, MAXNAMELEN - |name|
      {
        if |name| >= MAXNAMELEN - 1 {
          return -1, name;
        }
        var c := ReadChar();
        if IsWhitespace(c) {
          continue;
        } else if c == '{' {
          pos := pos - 1;
          return 0, name;
        }
        name := name + [c];
      }
    }

    /**
     * The splitting loop of xhd_config_parse_keycombo with a bound on
     * key_index: a ninth '+'-separated token fails with -1 where the
     * source writes past key_buf.
     */
    method SplitKeycombo() returns (ret: int, toks: seq<string>)
      requires Valid()
      modifies this
      ensures Valid()
      ensures var r := SplitLoop(text, old(Cur()), [""]);
        Cur() == r.cur && ret == (if r.Tokens? then 0 else -1) && (r.Tokens? ==> toks == r.toks)
    {
      toks := [""];
      while true
        invariant Valid() && 0 < |toks| <= MAXCOMBOLEN && |Last(toks)| < MAXKEYLEN
        invariant SplitLoop(text, Cur(), toks) == SplitLoop(text, old(Cur()), [""])
        decreases |text| - pos, MAXKEYLEN - |Last(toks)|
      {
        if |Last(toks)| >= MAXKEYLEN - 1 {
          return -1, toks;
        }
        var c := ReadChar();
        if IsWhitespace(c) {
          continue;
        } else if c == '+' {
          if |toks| >= MAXCOMBOLEN {
            return -1, toks;
          }
          toks := toks + [""];
          continue;
        } else if c == '-' || c == '{' {
          pos := pos - 1;
          return 0, toks;
        }
        toks := toks[..|toks| - 1] + [Last(toks) + [c]];
      }
    }

    /**
     * The modifier loop of xhd_config_parse_keycombo: -1 at the first
     * token that is not a modifier, otherwise 0 and the OR of their bits.
     */
    static method ModifierMask(mods: seq<string>) returns (ret: int, mod: Modifier)
      ensures ret == 0 <==> ModMask(mods).Some?
      ensures ret == 0 ==> ModMask(mods) == Some(mod)
      ensures ret != 0 ==> ret == -1
    {
      ghost var bits := Mods(mods);
      mod := 0;
      var i := 0;
      while i < |mods|
        invariant 0 <= i <= |mods|
        invariant MaskOf(bits[..i]) == Some(mod)
      {
        var tmp := ParseModifier(mods[i]);
        assert bits[i] == tmp;
        if tmp == NoModifier {
          MaskOfSome(bits);
          assert ModMask(mods) == MaskOf(bits) == None;
          return -1, 0;
        }
        MaskOfStep(bits, i, mod);
        mod := mod | tmp;
        i := i + 1;
      }
      assert bits[..i] == bits;
      assert ModMask(mods) == Some(mod);
      ret := 0;
    }

    /**
     * xhd_config_parse_keycombo, failing on a ninth token. Returns the
     * mask and keysym it prints, and the key name.
     */
    method ParseKeycombo() returns (ret: int, mod: Modifier, key: string, keysym: Keysym)
      requires Valid()
      modifies this
      ensures Valid()
      ensures var r := KeycomboAt(text, old(Cur()), resolve);
        Cur() == r.cur && ret == (if r.ComboOk? then 0 else -1) &&
        (r.ComboOk? ==> mod == r.mod && key == r.key && keysym == r.keysym)
    {
      var toks;
      ret, toks := SplitKeycombo();
      if ret != 0 {
        return -1, 0, "", 0;
      }
      ret, mod := ModifierMask(toks[..|toks| - 1]);
      if ret != 0 {
        return -1, 0, "", 0;
      }
      key := Last(toks);
      keysym := KeysymOf(resolve, key);
    }

    /** xhd_config_parse_flag_list; returns the flags it prints. */
    method ParseFlagList() returns (ret: int, flags: seq<string>)
      requires Valid()
      modifies this
      ensures Valid()
      ensures var r := FlagListAt(text, old(Cur()));
        Cur() == r.cur && ret == (if r.Ok? then 0 else -1) && (r.Ok? ==> flags == r.value)
    {
      TrimWhitespace();
      flags := [];
      while true
        invariant Valid()
        invariant FlagListLoop(text, Cur(), flags) == FlagListAt(text, old(Cur()))
        decreases |text| - pos
      {
        var c := GetChar();
        if c == '{' {
          return 0, flags;
        }
        var e := Expect('-');
        if e != 0 {
          return -1, flags;
        }
        e := Expect('-');
        if e != 0 {
          return -1, flags;
        }
        var f;
        e, f := ParseFlag();
        if e != 0 {
          return -1, flags;
        }
        TrimWhitespace();
        flags := flags + [f];
      }
    }

    /** xhd_config_parse_command_list; returns the commands it prints. */
    method ParseCommandList() returns (ret: int, cmds: seq<string>)
      requires Valid()
      modifies this
      ensures Valid()
      ensures var r := CommandListAt(text, old(Cur()));
        Cur() == r.cur && ret == (if r.Ok? then 0 else -1) && (r.Ok? ==> cmds == r.value)
    {
      TrimWhitespace();
      cmds := [];
      while true
        invariant Valid()
        invariant CommandListLoop(text, Cur(), cmds) == CommandListAt(text, old(Cur()))
        decreases |text| - pos
      {
        var c := GetChar();
        if c == '}' {
          return 0, cmds;
        }
        var e, cmd := ParseCommand();
        if e != 0 {
          return -1, cmds;
        }
        TrimWhitespace();
        cmds := cmds + [cmd];
      }
    }

    /** xhd_config_parse_hotkey_entry; returns the hotkey it prints. */
    method ParseHotkeyEntry() returns (ret: int, hotkey: Hotkey)
      requires Valid()
      modifies this
      ensures Valid()
      ensures var r := HotkeyEntryAt(text, old(Cur()), resolve);
        Cur() == r.cur && ret == (if r.Ok? then 0 else -1) && (r.Ok? ==> hotkey == r.value)
    {
      hotkey := Hotkey(0, "", 0, [], []);
      var e, mod, key, keysym := ParseKeycombo();
      if e != 0 {
        return -1, hotkey;
      }
      var flags, cmds;
      e, flags := ParseFlagList();
      if e != 0 {
        return -1, hotkey;
      }
      e := Expect('{');
      if e != 0 {
        return -1, hotkey;
      }
      e, cmds := ParseCommandList();
      if e != 0 {
        return -1, hotkey;
      }
      e := Expect('}');
      if e != 0 {
        return -1, hotkey;
      }
      return 0, Hotkey(mod, key, keysym, flags, cmds);
    }

    /** xhd_config_parse_hotkey_list. */
    method ParseHotkeyList() returns (ret: int, hotkeys: seq<Hotkey>)
      requires Valid()
      modifies this
      ensures Valid()
      ensures var r := HotkeyListAt(text, old(Cur()), resolve);
        Cur() == r.cur && ret == (if r.Ok? then 0 else -1) && (r.Ok? ==> hotkeys == r.value)
    {
      TrimWhitespace();
      hotkeys := [];
      while true
        invariant Valid()
        invariant HotkeyListLoop(text, Cur(), hotkeys, resolve) == HotkeyListAt(text, old(Cur()), resolve)
        decreases |text| - pos
      {
        var c := GetChar();
        if c == '}' {
          return 0, hotkeys;
        }
        var e, hotkey := ParseHotkeyEntry();
        if e != 0 {
          return -1, hotkeys;
        }
        TrimWhitespace();
        hotkeys := hotkeys + [hotkey];
      }
    }

    /** xhd_config_parse_mode_entry; returns the mode it prints. */
    method ParseModeEntry() returns (ret: int, mode: ModeEntry)
      requires Valid()
      modifies this
      ensures Valid()
      ensures var r := ModeEntryAt(text, old(Cur()), resolve);
        Cur() == r.cur && ret == (if r.Ok? then 0 else -1) && (r.Ok? ==> mode == r.value)
    {
      mode := ModeEntry("", []);
      var e, name := ParseModeName();
      if e != 0 {
        return -1, mode;
      }
      e := Expect('{');
      if e != 0 {
        return -1, mode;
      }
      var hotkeys;
      e, hotkeys := ParseHotkeyList();
      if e != 0 {
        return -1, mode;
      }
      e := Expect('}');
      if e != 0 {
        return -1, mode;
      }
      return 0, ModeEntry(name, hotkeys);
    }

    /**
     * xhd_config_parse_config_file, with its loop ending at the end of the
     * input instead of on feof: every mode entry of the file is parsed.
     */
    method ParseConfigFile() returns (ret: int, modes: seq<ModeEntry>)
      requires Valid()
      modifies this
      ensures Valid()
      ensures var r := ConfigLoopIntended(text, old(Cur()), [], resolve);
        Cur() == r.cur && ret == (if r.Ok? then 0 else -1) && (r.Ok? ==> modes == r.value)
    {
      modes := [];
      while true
        invariant Valid()
        invariant ConfigLoopIntended(text, Cur(), modes, resolve) == ConfigLoopIntended(text, old(Cur()), [], resolve)
        decreases |text| - pos
      {
        TrimWhitespace();
        var c := GetChar();
        if c == NUL {
          return 0, modes;
        }
        var e, mode := ParseModeEntry();
        if e != 0 {
          return -1, modes;
        }
        modes := modes + [mode];
      }
    }
  }
}

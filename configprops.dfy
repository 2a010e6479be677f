/**
 * What the productions of the config parser accept and yield, stated
 * over the text rather than over the reading loops.
 */
module ConfigProps {
  import opened XhdTypes
  import opened ConfigSpec

  /** A character that ends a flag: whitespace or '{'. */
  predicate FlagEnd(ch: char) {
    IsWhitespace(ch) || ch == '{'
  }

  /**
   * A flag is the run of characters up to the next whitespace or '{',
   * which is left unread; it is shorter than MAXFLAGLEN-1. The line
   * counter has counted the end character once, even though it is
   * pushed back.
   */
  lemma {:induction false} FlagLoopShape(text: string, c: Cursor, buf: string)
    requires Fits(text, c) && |buf| < MAXFLAGLEN
    ensures var r := FlagLoop(text, c, buf);
      r.Ok? ==>
        c.pos <= r.cur.pos < |text| && r.value == buf + text[c.pos..r.cur.pos] &&
        |r.value| < MAXFLAGLEN - 1 && FlagEnd(text[r.cur.pos]) &&
        (forall i :: c.pos <= i < r.cur.pos ==> !FlagEnd(text[i])) &&
        r.cur.lines == c.lines + if text[r.cur.pos] == '\n' then 1 else 0
    ensures FlagLoop(text, c, buf).Fail? <==>
      forall i :: c.pos <= i < c.pos + (MAXFLAGLEN - 1 - |buf|) ==> !FlagEnd(Ch(text, i))
    decreases MAXFLAGLEN - |buf|
  {
    if |buf| < MAXFLAGLEN - 1 {
      var (ch, d) := Read(text, c);
      if !FlagEnd(ch) {
        FlagLoopShape(text, d, buf + [ch]);
        var r := FlagLoop(text, d, buf + [ch]);
        if c.pos < |text| {
          if r.Ok? {
            assert text[c.pos..r.cur.pos] == [ch] + text[d.pos..r.cur.pos];
          }
        } else {
          assert forall i :: c.pos <= i ==> Ch(text, i) == NUL;
        }
      }
    }
  }

  /**
   * xhd_config_parse_flag succeeds exactly when whitespace or '{' comes
   * within MAXFLAGLEN-1 characters, and then the flag is the text before it.
   */
  lemma {:induction false} FlagAtShape(text: string, c: Cursor)
    requires Fits(text, c)
    ensures var r := FlagAt(text, c);
      r.Ok? ==>
        c.pos <= r.cur.pos < |text| && r.value == text[c.pos..r.cur.pos] &&
        |r.value| < MAXFLAGLEN - 1 && FlagEnd(text[r.cur.pos]) &&
        forall i :: c.pos <= i < r.cur.pos ==> !FlagEnd(text[i])
    ensures FlagAt(text, c).Fail? <==>
      forall i :: c.pos <= i < c.pos + (MAXFLAGLEN - 1) ==> !FlagEnd(Ch(text, i))
  {
    FlagLoopShape(text, c, "");
  }

  /** The text with its carriage returns removed. */
  function DropCR(s: string): (r: string)
    ensures |r| <= |s|
  {
    if s == [] then []
    else (if s[0] == '\r' then [] else [s[0]]) + DropCR(s[1..])
  }

  /** A character that ends a command: a newline or '}'. */
  predicate CommandEnd(ch: char) {
    ch == '\n' || ch == '}'
  }

  /** The first index from p on that holds a newline or '}', or |text| if none does. */
  function NextCommandEnd(text: string, p: nat): (q: nat)
    requires p <= |text|
    ensures p <= q <= |text| && (q < |text| ==> CommandEnd(text[q]))
    ensures forall i :: p <= i < q ==> !CommandEnd(text[i])
    decreases |text| - p
  {
    if p == |text| || CommandEnd(text[p]) then p else NextCommandEnd(text, p + 1)
  }

  /** DropCR of a text that starts with ch. */
  lemma {:induction false} DropCRCons(ch: char, s: string)
    ensures DropCR([ch] + s) == (if ch == '\r' then [] else [ch]) + DropCR(s)
  {
    assert ([ch] + s)[1..] == s;
  }

  /**
   * A command is the text up to the next newline or '}', without its
   * carriage returns and shorter than MAXCMDLEN-1. A newline is
   * consumed; a '}' is left unread.
   */
  lemma {:induction false} CommandLoopShape(text: string, c: Cursor, buf: string)
    requires Fits(text, c) && |buf| < MAXCMDLEN
    ensures CommandEnds(text, c.pos, buf, CommandLoop(text, c, buf))
    decreases MAXCMDLEN - |buf|, |text| - c.pos, 1
  {
    if |buf| < MAXCMDLEN - 1 {
      var ch := Ch(text, c.pos);
      if CommandEnd(ch) {
        assert text[c.pos..c.pos] == [];
      } else if ch == '\r' {
        CommandShapeSkip(text, c, buf);
      } else {
        CommandShapeKeep(text, c, buf);
      }
    }
  }

  /**
   * The command loop, started at p with buf, has room for the command:
   * a newline or '}' comes, and buf with the text before it, carriage
   * returns dropped, is shorter than MAXCMDLEN-1.
   */
  predicate CommandFits(text: string, p: nat, buf: string)
    requires p <= |text|
  {
    var q := NextCommandEnd(text, p);
    q < |text| && |buf + DropCR(text[p..q])| < MAXCMDLEN - 1
  }

  /**
   * How the command loop, started at p with buf, ends with r: it
   * succeeds exactly when the command fits, and then at the next newline
   * or '}' q, with buf followed by the text before q without its carriage
   * returns; past a newline, before a '}'.
   */
  predicate CommandEnds(text: string, p: nat, buf: string, r: Parsed<string>)
    requires p <= |text|
  {
    var q := NextCommandEnd(text, p);
    (r.Ok? <==> CommandFits(text, p, buf)) &&
    (r.Ok? ==>
      q < |text| && r.value == buf + DropCR(text[p..q]) && |r.value| < MAXCMDLEN - 1 &&
      r.cur.pos == if text[q] == '\n' then q + 1 else q)
  }

  /** A character other than a newline or '}' is read: kept unless it is a carriage return. */
  lemma {:induction false} CommandCons(text: string, p: nat, buf: string, r: Parsed<string>)
    requires p < |text| && !CommandEnd(text[p])
    requires CommandEnds(text, p + 1, if text[p] == '\r' then buf else buf + [text[p]], r)
    ensures CommandEnds(text, p, buf, r)
  {
    var q := NextCommandEnd(text, p + 1);
    assert NextCommandEnd(text, p) == q;
    assert text[p..q] == [text[p]] + text[p + 1..q];
    DropCRCons(text[p], text[p + 1..q]);
  }

  /** The command loop on a carriage return. */
  lemma {:induction false} CommandShapeSkip(text: string, c: Cursor, buf: string)
    requires Fits(text, c) && |buf| < MAXCMDLEN - 1 && Ch(text, c.pos) == '\r'
    ensures CommandEnds(text, c.pos, buf, CommandLoop(text, c, buf))
    decreases MAXCMDLEN - |buf|, |text| - c.pos, 0
  {
    var d := Read(text, c).1;
    CommandLoopShape(text, d, buf);
    CommandCons(text, c.pos, buf, CommandLoop(text, c, buf));
  }

  /** The command loop on a character kept in the command. */
  lemma {:induction false} CommandShapeKeep(text: string, c: Cursor, buf: string)
    requires Fits(text, c) && |buf| < MAXCMDLEN - 1
    requires var ch := Ch(text, c.pos); !CommandEnd(ch) && ch != '\r'
    ensures CommandEnds(text, c.pos, buf, CommandLoop(text, c, buf))
    decreases MAXCMDLEN - |buf|, |text| - c.pos, 0
  {
    var (ch, d) := Read(text, c);
    CommandLoopShape(text, d, buf + [ch]);
    if c.pos < |text| {
      CommandCons(text, c.pos, buf, CommandLoop(text, c, buf));
    } else {
      assert CommandLoop(text, c, buf) == CommandLoop(text, d, buf + [ch]);
    }
  }

  /**
   * xhd_config_parse_command, from the start of a command: it succeeds
   * exactly when a newline or '}' comes and the text before it, carriage
   * returns dropped, is shorter than MAXCMDLEN-1.
   */
  lemma {:induction false} CommandAtShape(text: string, c: Cursor)
    requires Fits(text, c)
    ensures var q := NextCommandEnd(text, c.pos);
      CommandAt(text, c).Ok? <==> q < |text| && |DropCR(text[c.pos..q])| < MAXCMDLEN - 1
    ensures var r := CommandAt(text, c);
      var q := NextCommandEnd(text, c.pos);
      r.Ok? ==>
        q < |text| && r.value == DropCR(text[c.pos..q]) && |r.value| < MAXCMDLEN - 1 &&
        r.cur.pos == if text[q] == '\n' then q + 1 else q
  {
    CommandLoopShape(text, c, "");
    assert "" + DropCR(text[c.pos..NextCommandEnd(text, c.pos)]) == DropCR(text[c.pos..NextCommandEnd(text, c.pos)]);
  }

  /** The text with its whitespace removed. */
  function Strip(s: string): (r: string)
    ensures |r| <= |s|
  {
    if s == [] then []
    else Strip(s[..|s| - 1]) + if IsWhitespace(Last(s)) then [] else [Last(s)]
  }

  /**
   * A mode name is the text up to the next '{', which is left unread,
   * with all its whitespace removed, and shorter than MAXNAMELEN-1.
   */
  lemma {:induction false} NameLoopShape(text: string, c: Cursor, buf: string)
    requires Fits(text, c) && |buf| < MAXNAMELEN
    ensures NameEnds(text, c.pos, buf, NameLoop(text, c, buf))
    decreases |text| - c.pos, MAXNAMELEN - |buf|, 1
  {
    if |buf| < MAXNAMELEN - 1 {
      var ch := Ch(text, c.pos);
      if ch == '{' {
        assert text[c.pos..c.pos] == [];
      } else if IsWhitespace(ch) {
        NameShapeSkip(text, c, buf);
      } else {
        NameShapeKeep(text, c, buf);
      }
    }
  }

  /** The first index from p on that holds a '{', or |text| if none does. */
  function NextOpen(text: string, p: nat): (q: nat)
    requires p <= |text|
    ensures p <= q <= |text| && (q < |text| ==> text[q] == '{')
    ensures forall i :: p <= i < q ==> text[i] != '{'
    decreases |text| - p
  {
    if p == |text| || text[p] == '{' then p else NextOpen(text, p + 1)
  }

  /**
   * The name loop, started at p with buf, has room for the name: a '{'
   * comes, and buf with the text before it, whitespace removed, is
   * shorter than MAXNAMELEN-1.
   */
  predicate NameFits(text: string, p: nat, buf: string)
    requires p <= |text|
  {
    var q := NextOpen(text, p);
    q < |text| && |buf + Strip(text[p..q])| < MAXNAMELEN - 1
  }

  /**
   * How the name loop, started at p with buf, ends with r: it succeeds
   * exactly when the name fits, and then on a '{' left unread with none
   * before it, with buf followed by the text read, whitespace removed.
   */
  predicate NameEnds(text: string, p: nat, buf: string, r: Parsed<string>)
    requires p <= |text|
  {
    (r.Ok? <==> NameFits(text, p, buf)) &&
    (r.Ok? ==>
      p <= r.cur.pos < |text| && text[r.cur.pos] == '{' &&
      r.value == buf + Strip(text[p..r.cur.pos]) && |r.value| < MAXNAMELEN - 1 &&
      forall i :: p <= i < r.cur.pos ==> text[i] != '{')
  }

  /** A character other than '{' is read: kept in the name unless it is whitespace. */
  lemma {:induction false} NameCons(text: string, p: nat, buf: string, r: Parsed<string>)
    requires p < |text| && text[p] != '{'
    requires NameEnds(text, p + 1, if IsWhitespace(text[p]) then buf else buf + [text[p]], r)
    ensures NameEnds(text, p, buf, r)
  {
    NameConsFits(text, p, buf);
    if r.Ok? {
      assert text[p..r.cur.pos] == [text[p]] + text[p + 1..r.cur.pos];
      StripCons(text[p], text[p + 1..r.cur.pos]);
    }
  }

  /** The name fits before a character other than '{' exactly when it fits after it. */
  lemma {:induction false} NameConsFits(text: string, p: nat, buf: string)
    requires p < |text| && text[p] != '{'
    ensures NameFits(text, p, buf) == NameFits(text, p + 1, if IsWhitespace(text[p]) then buf else buf + [text[p]])
  {
    var q := NextOpen(text, p + 1);
    assert NextOpen(text, p) == q;
    assert text[p..q] == [text[p]] + text[p + 1..q];
    StripCons(text[p], text[p + 1..q]);
  }

  /** The name loop on whitespace. */
  lemma {:induction false} NameShapeSkip(text: string, c: Cursor, buf: string)
    requires Fits(text, c) && |buf| < MAXNAMELEN - 1 && IsWhitespace(Ch(text, c.pos))
    ensures NameEnds(text, c.pos, buf, NameLoop(text, c, buf))
    decreases |text| - c.pos, MAXNAMELEN - |buf|, 0
  {
    var d := Read(text, c).1;
    NameLoopShape(text, d, buf);
    NameCons(text, c.pos, buf, NameLoop(text, c, buf));
  }

  /** The name loop on a character kept in the name. */
  lemma {:induction false} NameShapeKeep(text: string, c: Cursor, buf: string)
    requires Fits(text, c) && |buf| < MAXNAMELEN - 1
    requires var ch := Ch(text, c.pos); ch != '{' && !IsWhitespace(ch)
    ensures NameEnds(text, c.pos, buf, NameLoop(text, c, buf))
    decreases |text| - c.pos, MAXNAMELEN - |buf|, 0
  {
    var (ch, d) := Read(text, c);
    NameLoopShape(text, d, buf + [ch]);
    if c.pos < |text| {
      NameCons(text, c.pos, buf, NameLoop(text, c, buf));
    }
  }

  /** Removing whitespace from a text that starts with ch. */
  lemma {:induction false} StripCons(ch: char, s: string)
    ensures Strip([ch] + s) == (if IsWhitespace(ch) then [] else [ch]) + Strip(s)
    decreases |s|
  {
    if s != [] {
      StripCons(ch, s[..|s| - 1]);
      assert ([ch] + s)[..|s|] == [ch] + s[..|s| - 1];
    }
  }

  /**
   * xhd_config_parse_mode_name, from the start of a name: it succeeds
   * exactly when a '{' comes and the text before the first one,
   * whitespace removed, is shorter than MAXNAMELEN-1.
   */
  lemma {:induction false} NameAtShape(text: string, c: Cursor)
    requires Fits(text, c)
    ensures var q := NextOpen(text, c.pos);
      NameAt(text, c).Ok? <==> q < |text| && |Strip(text[c.pos..q])| < MAXNAMELEN - 1
    ensures var r := NameAt(text, c);
      r.Ok? ==>
        c.pos <= r.cur.pos < |text| && text[r.cur.pos] == '{' &&
        r.value == Strip(text[c.pos..r.cur.pos]) && |r.value| < MAXNAMELEN - 1 &&
        forall i :: c.pos <= i < r.cur.pos ==> text[i] != '{'
  {
    NameLoopShape(text, c, "");
    assert "" + Strip(text[c.pos..NextOpen(text, c.pos)]) == Strip(text[c.pos..NextOpen(text, c.pos)]);
  }

  /** The tokens joined with '+' between them. */
  function JoinPlus(toks: seq<string>): string
    requires |toks| > 0
  {
    if |toks| == 1 then toks[0]
    else JoinPlus(toks[..|toks| - 1]) + "+" + Last(toks)
  }

  /** Appending a character to the last token appends it to the joined text. */
  lemma {:induction false} JoinPlusExtend(toks: seq<string>, ch: char)
    requires |toks| > 0
    ensures JoinPlus(toks[..|toks| - 1] + [Last(toks) + [ch]]) == JoinPlus(toks) + [ch]
  {
    var t := toks[..|toks| - 1] + [Last(toks) + [ch]];
    assert |t| == |toks| && Last(t) == Last(toks) + [ch];
    if |toks| == 1 {
      assert JoinPlus(t) == t[0];
    } else {
      assert t[..|t| - 1] == toks[..|toks| - 1];
      var j := JoinPlus(toks[..|toks| - 1]);
      var last := Last(toks);
      assert JoinPlus(t) == j + "+" + (last + [ch]);
      assert JoinPlus(toks) == j + "+" + last;
      assert j + "+" + (last + [ch]) == (j + "+" + last) + [ch];
    }
  }

  /** Starting a new token appends a '+' to the joined text. */
  lemma {:induction false} JoinPlusNew(toks: seq<string>)
    requires |toks| > 0
    ensures JoinPlus(toks + [""]) == JoinPlus(toks) + "+"
  {
    assert (toks + [""])[..|toks|] == toks;
  }

  /** The tokens joined with '+', the first one in front. */
  lemma {:induction false} JoinPlusCons(a: string, toks: seq<string>)
    requires |toks| > 0
    ensures JoinPlus([a] + toks) == a + "+" + JoinPlus(toks)
    decreases |toks|
  {
    var t := [a] + toks;
    assert t[..|t| - 1] == [a] + toks[..|toks| - 1] && Last(t) == Last(toks);
    if |toks| > 1 {
      JoinPlusCons(a, toks[..|toks| - 1]);
    }
  }

  /**
   * The '+'-separated pieces of cur + s, where cur is the piece being
   * read: each '+' closes a piece and opens an empty one.
   */
  function Pieces(cur: string, s: string): (ps: seq<string>)
    ensures |ps| > 0 && |ps[0]| >= |cur|
    decreases |s|
  {
    if s == [] then [cur]
    else if s[0] == '+' then [cur] + Pieces("", s[1..])
    else Pieces(cur + [s[0]], s[1..])
  }

  /**
   * Pieces cuts at every '+' and nowhere else: the pieces hold no '+',
   * there is one more of them than there are '+' in s, and joined with
   * '+' they give back cur + s.
   */
  lemma {:induction false} PiecesJoin(cur: string, s: string)
    requires '+' !in cur
    ensures var ps := Pieces(cur, s);
      (forall j :: 0 <= j < |ps| ==> '+' !in ps[j]) &&
      |ps| == multiset(s)['+'] + 1 && JoinPlus(ps) == cur + s
    decreases |s|
  {
    if s != [] {
      var rest := s[1..];
      assert s == [s[0]] + rest;
      assert multiset(s) == multiset([s[0]]) + multiset(rest);
      if s[0] == '+' {
        PiecesJoin("", rest);
        JoinPlusCons(cur, Pieces("", rest));
      } else {
        PiecesJoin(cur + [s[0]], rest);
        assert cur + [s[0]] + rest == cur + s;
      }
    }
  }

  /** The first index from p on that holds a '-' or '{', or |text| if none does. */
  function NextComboEnd(text: string, p: nat): (q: nat)
    requires p <= |text|
    ensures p <= q <= |text| && (q < |text| ==> text[q] == '-' || text[q] == '{')
    ensures forall i :: p <= i < q ==> text[i] != '-' && text[i] != '{'
    decreases |text| - p
  {
    if p == |text| || text[p] == '-' || text[p] == '{' then p else NextComboEnd(text, p + 1)
  }

  /**
   * The splitting loop, started at p with `toks`, has room for the
   * combo: a '-' or '{' comes; the pieces of the text before it,
   * whitespace removed and the last token in front, fill at most
   * MAXCOMBOLEN tokens with those before; and each piece is shorter than
   * MAXKEYLEN-1.
   */
  predicate SplitFits(text: string, p: nat, toks: seq<string>)
    requires p <= |text| && |toks| > 0
  {
    var q := NextComboEnd(text, p);
    var ps := Pieces(Last(toks), Strip(text[p..q]));
    q < |text| && |toks| - 1 + |ps| <= MAXCOMBOLEN &&
    forall j :: 0 <= j < |ps| ==> |ps[j]| < MAXKEYLEN - 1
  }

  /**
   * How the splitting loop of xhd_config_parse_keycombo, started at p
   * with `toks`, ends with r: with tokens exactly when the combo fits,
   * and then before the first '-' or '{' (left unread), with the tokens
   * read before kept and the new ones the pieces of the text read,
   * whitespace removed, the last token in front.
   */
  predicate SplitEnds(text: string, p: nat, toks: seq<string>, r: Split)
    requires p <= |text| && |toks| > 0
  {
    (r.Tokens? <==> SplitFits(text, p, toks)) &&
    (r.Tokens? ==>
      r.cur.pos == NextComboEnd(text, p) &&
      r.toks == toks[..|toks| - 1] + Pieces(Last(toks), Strip(text[p..r.cur.pos])))
  }

  /** Whitespace is skipped. */
  lemma {:induction false} SplitSkip(text: string, p: nat, toks: seq<string>, r: Split)
    requires p < |text| && IsWhitespace(text[p]) && |toks| > 0
    requires SplitEnds(text, p + 1, toks, r)
    ensures SplitEnds(text, p, toks, r)
  {
    var q := NextComboEnd(text, p + 1);
    assert NextComboEnd(text, p) == q;
    assert text[p..q] == [text[p]] + text[p + 1..q];
    StripCons(text[p], text[p + 1..q]);
    assert Strip(text[p..q]) == Strip(text[p + 1..q]);
    assert SplitFits(text, p, toks) == SplitFits(text, p + 1, toks);
  }

  /** A '+' in front of s closes the piece being read. */
  lemma {:induction false} PiecesPlus(cur: string, s: string)
    ensures Pieces(cur, "+" + s) == [cur] + Pieces("", s)
  {
    assert ("+" + s)[1..] == s;
  }

  /** The combo fits before a '+' exactly when it fits after it, with the current token kept. */
  lemma {:induction false} SplitPlusFits(text: string, p: nat, toks: seq<string>)
    requires p < |text| && text[p] == '+' && |toks| > 0 && |Last(toks)| < MAXKEYLEN - 1
    ensures var q := NextComboEnd(text, p);
      q == NextComboEnd(text, p + 1) &&
      Pieces(Last(toks), Strip(text[p..q])) == [Last(toks)] + Pieces("", Strip(text[p + 1..q]))
    ensures SplitFits(text, p, toks) == SplitFits(text, p + 1, toks + [""])
  {
    var q := NextComboEnd(text, p + 1);
    assert NextComboEnd(text, p) == q;
    assert text[p..q] == [text[p]] + text[p + 1..q];
    StripCons(text[p], text[p + 1..q]);
    var rest := Strip(text[p + 1..q]);
    var last := Last(toks);
    assert Strip(text[p..q]) == "+" + rest;
    PiecesPlus(last, rest);
    var ps := Pieces("", rest);
    var all := [last] + ps;
    assert Last(toks + [""]) == "";
    assert (forall j :: 0 <= j < |all| ==> |all[j]| < MAXKEYLEN - 1) <==>
           (forall j :: 0 <= j < |ps| ==> |ps[j]| < MAXKEYLEN - 1) by {
      assert forall j :: 0 <= j < |ps| ==> all[j + 1] == ps[j];
    }
  }

  /** A '+' closes the current token, which is then kept as it is. */
  lemma {:induction false} SplitPlus(text: string, p: nat, toks: seq<string>, r: Split)
    requires p < |text| && text[p] == '+' && |toks| > 0 && |Last(toks)| < MAXKEYLEN - 1
    requires SplitEnds(text, p + 1, toks + [""], r)
    ensures SplitEnds(text, p, toks, r)
  {
    SplitPlusFits(text, p, toks);
    if r.Tokens? {
      var ps := Pieces("", Strip(text[p + 1..r.cur.pos]));
      assert (toks + [""])[..|toks|] == toks;
      assert toks[..|toks| - 1] + ([Last(toks)] + ps) == toks + ps;
    }
  }

  /** Any other character is added to the current token. */
  lemma {:induction false} SplitChar(text: string, p: nat, toks: seq<string>, r: Split)
    requires p < |text| && |toks| > 0
    requires !IsWhitespace(text[p]) && text[p] != '+' && text[p] != '-' && text[p] != '{'
    requires SplitEnds(text, p + 1, toks[..|toks| - 1] + [Last(toks) + [text[p]]], r)
    ensures SplitEnds(text, p, toks, r)
  {
    var ch := text[p];
    var toks' := toks[..|toks| - 1] + [Last(toks) + [ch]];
    var q := NextComboEnd(text, p + 1);
    assert NextComboEnd(text, p) == q;
    assert text[p..q] == [ch] + text[p + 1..q];
    StripCons(ch, text[p + 1..q]);
    var rest := Strip(text[p + 1..q]);
    assert ([ch] + rest)[1..] == rest;
    assert Pieces(Last(toks), [ch] + rest) == Pieces(Last(toks'), rest);
    assert toks'[..|toks| - 1] == toks[..|toks| - 1];
    assert SplitFits(text, p, toks) == SplitFits(text, p + 1, toks');
  }

  /** What the splitting loop of xhd_config_parse_keycombo ends with. */
  lemma {:induction false} SplitLoopShape(text: string, c: Cursor, toks: seq<string>)
    requires Fits(text, c) && 0 < |toks| <= MAXCOMBOLEN && |Last(toks)| < MAXKEYLEN
    requires '+' !in Last(toks)
    ensures SplitEnds(text, c.pos, toks, SplitLoop(text, c, toks))
    decreases |text| - c.pos, MAXKEYLEN - |Last(toks)|, 1
  {
    if |Last(toks)| < MAXKEYLEN - 1 {
      var ch := Ch(text, c.pos);
      if IsWhitespace(ch) {
        SplitShapeSkip(text, c, toks);
      } else if ch == '+' {
        if |toks| < MAXCOMBOLEN {
          SplitShapePlus(text, c, toks);
        } else {
          SplitPlusFits(text, c.pos, toks);
        }
      } else if ch == '-' || ch == '{' {
        assert text[c.pos..c.pos] == [];
      } else {
        SplitShapeChar(text, c, toks);
      }
    }
  }

  /** The splitting loop on whitespace. */
  lemma {:induction false} SplitShapeSkip(text: string, c: Cursor, toks: seq<string>)
    requires Fits(text, c) && 0 < |toks| <= MAXCOMBOLEN && |Last(toks)| < MAXKEYLEN - 1
    requires '+' !in Last(toks) && IsWhitespace(Ch(text, c.pos))
    ensures SplitEnds(text, c.pos, toks, SplitLoop(text, c, toks))
    decreases |text| - c.pos, MAXKEYLEN - |Last(toks)|, 0
  {
    var d := Read(text, c).1;
    SplitLoopShape(text, d, toks);
    SplitSkip(text, c.pos, toks, SplitLoop(text, c, toks));
  }

  /** The splitting loop on '+' with room for another token. */
  lemma {:induction false} SplitShapePlus(text: string, c: Cursor, toks: seq<string>)
    requires Fits(text, c) && 0 < |toks| < MAXCOMBOLEN && |Last(toks)| < MAXKEYLEN - 1
    requires '+' !in Last(toks) && Ch(text, c.pos) == '+'
    ensures SplitEnds(text, c.pos, toks, SplitLoop(text, c, toks))
    decreases |text| - c.pos, MAXKEYLEN - |Last(toks)|, 0
  {
    var d := Read(text, c).1;
    SplitLoopShape(text, d, toks + [""]);
    SplitPlus(text, c.pos, toks, SplitLoop(text, c, toks));
  }

  /** The splitting loop on a character it adds to the current token. */
  lemma {:induction false} SplitShapeChar(text: string, c: Cursor, toks: seq<string>)
    requires Fits(text, c) && 0 < |toks| <= MAXCOMBOLEN && |Last(toks)| < MAXKEYLEN - 1
    requires '+' !in Last(toks)
    requires var ch := Ch(text, c.pos); !IsWhitespace(ch) && ch != '+' && ch != '-' && ch != '{'
    ensures SplitEnds(text, c.pos, toks, SplitLoop(text, c, toks))
    decreases |text| - c.pos, MAXKEYLEN - |Last(toks)|, 0
  {
    var (ch, d) := Read(text, c);
    var toks' := toks[..|toks| - 1] + [Last(toks) + [ch]];
    SplitLoopShape(text, d, toks');
    if c.pos < |text| {
      SplitChar(text, c.pos, toks, SplitLoop(text, c, toks));
    }
  }

  /**
   * xhd_config_parse_keycombo accepts the combo exactly when the split
   * ends on '-' or '{' and every token but the last is a modifier
   * keyword; the last token is the key, whatever its keysym (an unknown
   * one is not an error). The tokens are the '+'-separated pieces of the
   * combo text with its whitespace removed, and a ninth '+' is the
   * overflow case.
   */
  lemma {:induction false} KeycomboShape(text: string, c: Cursor, resolve: string -> Keysym)
    requires Fits(text, c)
    ensures var q := NextComboEnd(text, c.pos);
      var ps := Pieces("", Strip(text[c.pos..q]));
      var s := SplitLoop(text, c, [""]);
      (s.Tokens? <==>
        q < |text| && multiset(Strip(text[c.pos..q]))['+'] < MAXCOMBOLEN &&
        forall j :: 0 <= j < |ps| ==> |ps[j]| < MAXKEYLEN - 1) &&
      (s.Tokens? ==> s.toks == ps)
    ensures var q := NextComboEnd(text, c.pos);
      var ps := Pieces("", Strip(text[c.pos..q]));
      KeycomboAt(text, c, resolve).ComboOk? <==>
        q < |text| && multiset(Strip(text[c.pos..q]))['+'] < MAXCOMBOLEN &&
        (forall j :: 0 <= j < |ps| ==> |ps[j]| < MAXKEYLEN - 1) &&
        forall i :: 0 <= i < |ps| - 1 ==> ParseModifier(ps[i]) != NoModifier
    ensures var r := KeycomboAt(text, c, resolve);
      var s := SplitLoop(text, c, [""]);
      r.ComboOk? <==> s.Tokens? && forall i :: 0 <= i < |s.toks| - 1 ==> ParseModifier(s.toks[i]) != NoModifier
    ensures var r := KeycomboAt(text, c, resolve);
      var s := SplitLoop(text, c, [""]);
      r.ComboOk? ==>
        s.Tokens? && s.cur == r.cur && c.pos <= r.cur.pos < |text| &&
        (text[r.cur.pos] == '-' || text[r.cur.pos] == '{') &&
        (forall i :: c.pos <= i < r.cur.pos ==> text[i] != '-' && text[i] != '{') &&
        (forall j :: 0 <= j < |s.toks| ==> '+' !in s.toks[j] && |s.toks[j]| < MAXKEYLEN - 1) &&
        JoinPlus(s.toks) == Strip(text[c.pos..r.cur.pos]) &&
        Some(r.mod) == ModMask(s.toks[..|s.toks| - 1]) &&
        r.key == Last(s.toks) && r.keysym == KeysymOf(resolve, r.key)
    ensures KeycomboAt(text, c, resolve).ComboOverflow? <==> SplitLoop(text, c, [""]).SplitOverflow?
  {
    var s := SplitLoop(text, c, [""]);
    SplitLoopShape(text, c, [""]);
    var q := NextComboEnd(text, c.pos);
    PiecesJoin("", Strip(text[c.pos..q]));
    assert [""][..0] + Pieces("", Strip(text[c.pos..q])) == Pieces("", Strip(text[c.pos..q]));
    assert JoinPlus([""]) == "";
    KeycomboOutcome(text, c, resolve);
    if s.Tokens? {
      ModifierTokens(s.toks);
    }
  }

  /** What parse_keycombo makes of the split: the mask of all tokens but the last, and the last as the key. */
  lemma {:induction false} KeycomboOutcome(text: string, c: Cursor, resolve: string -> Keysym)
    requires Fits(text, c)
    ensures var r := KeycomboAt(text, c, resolve);
      var s := SplitLoop(text, c, [""]);
      (r.ComboOk? <==> s.Tokens? && ModMask(s.toks[..|s.toks| - 1]).Some?) &&
      (r.ComboOk? ==>
        r.cur == s.cur && Some(r.mod) == ModMask(s.toks[..|s.toks| - 1]) &&
        r.key == Last(s.toks) && r.keysym == KeysymOf(resolve, r.key)) &&
      (r.ComboOverflow? <==> s.SplitOverflow?)
  { }

  /** The tokens before the key are accepted exactly when each parses to a modifier. */
  lemma {:induction false} ModifierTokens(toks: seq<string>)
    requires |toks| > 0
    ensures ModMask(toks[..|toks| - 1]).Some? <==>
            forall i :: 0 <= i < |toks| - 1 ==> ParseModifier(toks[i]) != NoModifier
  {
    var mods := toks[..|toks| - 1];
    ModMaskSome(mods);
    assert forall i :: 0 <= i < |toks| - 1 ==> mods[i] == toks[i];
  }

  /**
   * OR-ing in a modifier bit b keeps the upper byte clear and sets the
   * bit of keyword k exactly when it was set or b is that bit.
   */
  lemma {:induction false} MaskStep(m: Modifier, b: Modifier, k: nat)
    requires b in Bits && k < |Bits| && m & 0xFF00 == 0
    ensures MaskOr(m, b) & 0xFF00 == 0
    ensures MaskOr(m, b) & Bits[k] != 0 <==> m & Bits[k] != 0 || b == Bits[k]
  {
  }

  /**
   * The modifier mask of keyword bits: bit k is set exactly when some
   * entry is Bits[k], and the upper byte stays clear.
   */
  lemma {:induction false} MaskOfExact(bits: seq<Modifier>, k: nat)
    requires k < |Bits| && forall i :: 0 <= i < |bits| ==> bits[i] in Bits
    ensures MaskOf(bits).Some? && MaskOf(bits).value & 0xFF00 == 0
    ensures MaskOf(bits).value & Bits[k] != 0 <==> exists i :: 0 <= i < |bits| && bits[i] == Bits[k]
    decreases |bits|
  {
    if bits != [] {
      var init := bits[..|bits| - 1];
      assert forall i :: 0 <= i < |init| ==> init[i] == bits[i];
      MaskOfExact(init, k);
      var b := Last(bits);
      var m := MaskOf(init).value;
      assert b in Bits && b != NoModifier;
      assert MaskOf(bits) == Some(MaskOr(m, b));
      MaskStep(m, b, k);
      if exists i :: 0 <= i < |init| && init[i] == Bits[k] {
        var i :| 0 <= i < |init| && init[i] == Bits[k];
        assert bits[i] == Bits[k];
      }
      if exists i :: 0 <= i < |bits| && bits[i] == Bits[k] {
        var i :| 0 <= i < |bits| && bits[i] == Bits[k];
        if i < |init| {
          assert init[i] == Bits[k];
        }
      }
    }
  }

  /**
   * The mask of accepted modifier tokens has the bit of keyword k set
   * exactly when some token starts with that keyword, ignoring case,
   * and no bit above the eight modifier bits.
   */
  lemma {:induction false} ModMaskExact(toks: seq<string>, k: nat)
    requires k < |Keywords| && ModMask(toks).Some?
    ensures ModMask(toks).value & 0xFF00 == 0
    ensures ModMask(toks).value & Bits[k] != 0 <==> exists i :: 0 <= i < |toks| && MatchesCI(toks[i], Keywords[k])
  {
    var bits := Mods(toks);
    ModMaskSome(toks);
    forall i | 0 <= i < |toks|
      ensures bits[i] in Bits
      ensures bits[i] == Bits[k] <==> MatchesCI(toks[i], Keywords[k])
    {
      assert bits[i] == ParseModifier(toks[i]);
      ParseModifierMatches(toks[i], k);
    }
    MaskOfExact(bits, k);
  }

  /** A flag list ends before '{', which is left for the hotkey entry to expect; earlier flags are kept. */
  lemma {:induction false} FlagListLoopEnds(text: string, c: Cursor, flags: seq<string>)
    requires Fits(text, c)
    ensures var r := FlagListLoop(text, c, flags);
      r.Ok? ==> Ch(text, r.cur.pos) == '{' && flags <= r.value
    decreases |text| - c.pos
  {
    var (ch, d) := Peek(text, c);
    if ch != '{' {
      var (ok1, d1) := ExpectAt(text, d, '-');
      var (ok2, d2) := ExpectAt(text, d1, '-');
      if ok1 && ok2 {
        match FlagAt(text, d2)
        case Fail(_) =>
        case Ok(f, e) =>
          FlagListLoopEnds(text, Trim(text, e), flags + [f]);
      }
    }
  }

  /** xhd_config_parse_flag_list succeeds only before '{'. */
  lemma {:induction false} FlagListEnds(text: string, c: Cursor)
    requires Fits(text, c)
    ensures var r := FlagListAt(text, c);
      r.Ok? ==> Ch(text, r.cur.pos) == '{'
  {
    FlagListLoopEnds(text, Trim(text, c), []);
  }

  /**
   * xhd_config_parse_flag_list fails when the first character after
   * whitespace is neither '{' nor the start of "--".
   */
  lemma {:induction false} FlagListRejects(text: string, c: Cursor)
    requires Fits(text, c)
    ensures var t := Trim(text, c).pos;
      Ch(text, t) != '{' && !(Ch(text, t) == '-' && Ch(text, t + 1) == '-') ==> FlagListAt(text, c).Fail?
  {
    var t := Trim(text, c);
    if Ch(text, t.pos) != '{' && !(Ch(text, t.pos) == '-' && Ch(text, t.pos + 1) == '-') {
      FlagListNeedsDashes(text, t, []);
    }
  }

  /** A flag list whose next character is neither '{' nor the start of "--" fails. */
  lemma {:induction false} FlagListNeedsDashes(text: string, c: Cursor, flags: seq<string>)
    requires Fits(text, c)
    requires Ch(text, c.pos) != '{' && !(Ch(text, c.pos) == '-' && Ch(text, c.pos + 1) == '-')
    ensures FlagListLoop(text, c, flags).Fail?
  {
    var (ch, d) := Peek(text, c);
    var (ok1, d1) := ExpectAt(text, d, '-');
    if ok1 {
      assert d1.pos == c.pos + 1;
      var (ok2, d2) := ExpectAt(text, d1, '-');
      assert !ok2;
    }
  }

  /** A command list ends before '}', which is left for the hotkey entry to expect; earlier commands are kept. */
  lemma {:induction false} CommandListLoopEnds(text: string, c: Cursor, cmds: seq<string>)
    requires Fits(text, c)
    ensures var r := CommandListLoop(text, c, cmds);
      r.Ok? ==> Ch(text, r.cur.pos) == '}' && cmds <= r.value
    decreases |text| - c.pos
  {
    var (ch, d) := Peek(text, c);
    if ch != '}' {
      match CommandAt(text, d)
      case Fail(_) =>
      case Ok(cmd, e) =>
        CommandListLoopEnds(text, Trim(text, e), cmds + [cmd]);
    }
  }

  /** A hotkey list ends before '}', which is left for the mode entry to expect; earlier hotkeys are kept. */
  lemma {:induction false} HotkeyListLoopEnds(text: string, c: Cursor, keys: seq<Hotkey>, resolve: string -> Keysym)
    requires Fits(text, c)
    ensures var r := HotkeyListLoop(text, c, keys, resolve);
      r.Ok? ==> Ch(text, r.cur.pos) == '}' && keys <= r.value
    decreases |text| - c.pos
  {
    var (ch, d) := Peek(text, c);
    if ch != '}' {
      match HotkeyEntryAt(text, d, resolve)
      case Fail(_) =>
      case Ok(k, e) =>
        HotkeyListLoopEnds(text, Trim(text, e), keys + [k], resolve);
    }
  }

  /**
   * Once the keycombo is read, the rest of a hotkey entry succeeds
   * exactly when its flag list and command list do: the '{' and '}' it
   * expects around the commands are always there once the lists are
   * read.
   */
  lemma {:induction false} HotkeyBodyAccepts(text: string, c: Cursor, m: Modifier, key: string, sym: Keysym)
    requires Fits(text, c)
    ensures var r := HotkeyBodyAt(text, c, m, key, sym);
      var f := FlagListAt(text, c);
      r.Ok? <==> f.Ok? && CommandListAt(text, Read(text, f.cur).1).Ok?
  {
    var f := FlagListAt(text, c);
    FlagListEnds(text, c);
    if f.Ok? {
      var e2 := Read(text, f.cur).1;
      CommandListLoopEnds(text, Trim(text, e2), []);
    }
  }

  /**
   * xhd_config_parse_hotkey_entry succeeds exactly when its keycombo,
   * flag list and command list do.
   */
  lemma {:induction false} HotkeyEntryAccepts(text: string, c: Cursor, resolve: string -> Keysym)
    requires Fits(text, c)
    ensures var r := HotkeyEntryAt(text, c, resolve);
      var k := KeycomboAt(text, c, resolve);
      r.Ok? <==>
        k.ComboOk? && FlagListAt(text, k.cur).Ok? &&
        CommandListAt(text, Read(text, FlagListAt(text, k.cur).cur).1).Ok?
  {
    var k := KeycomboAt(text, c, resolve);
    if k.ComboOk? {
      HotkeyBodyAccepts(text, k.cur, k.mod, k.key, k.keysym);
    }
  }

  /**
   * xhd_config_parse_mode_entry succeeds exactly when its name and its
   * hotkey list do: the '{' and '}' around the list are always there
   * once the name and the list are read.
   */
  lemma {:induction false} ModeEntryAccepts(text: string, c: Cursor, resolve: string -> Keysym)
    requires Fits(text, c)
    ensures var r := ModeEntryAt(text, c, resolve);
      var n := NameAt(text, c);
      r.Ok? <==> n.Ok? && HotkeyListAt(text, Read(text, n.cur).1, resolve).Ok?
  {
    var n := NameAt(text, c);
    NameAtShape(text, c);
    if n.Ok? {
      var e1 := Read(text, n.cur).1;
      HotkeyListLoopEnds(text, Trim(text, e1), [], resolve);
    }
  }

  /** A character the splitting loop adds to the current token. */
  predicate TokenChar(ch: char) {
    !IsWhitespace(ch) && ch != '+' && ch != '-' && ch != '{' && ch != NUL
  }

  /** In a fetched block, a token character is added to the current token. */
  lemma {:induction false} SplitStep(text: string, c: Cursor, toks: seq<string>)
    requires Fits(text, c) && c.pos < c.loaded && TokenChar(text[c.pos])
    requires 0 < |toks| <= MAXCOMBOLEN && |Last(toks)| < MAXKEYLEN - 1
    ensures SplitLoop(text, c, toks) ==
      SplitLoop(text, c.(pos := c.pos + 1), toks[..|toks| - 1] + [Last(toks) + [text[c.pos]]])
  {
    assert Read(text, c) == (text[c.pos], c.(pos := c.pos + 1));
  }

  /** In a fetched block, '+' starts a new token, or is the overflow once there are MAXCOMBOLEN. */
  lemma {:induction false} SplitPlusStep(text: string, c: Cursor, toks: seq<string>)
    requires Fits(text, c) && c.pos < c.loaded && text[c.pos] == '+'
    requires 0 < |toks| <= MAXCOMBOLEN && |Last(toks)| < MAXKEYLEN - 1
    ensures |toks| < MAXCOMBOLEN ==>
      SplitLoop(text, c, toks) == SplitLoop(text, c.(pos := c.pos + 1), toks + [""])
    ensures |toks| == MAXCOMBOLEN ==> SplitLoop(text, c, toks).SplitOverflow?
  {
    assert Read(text, c) == ('+', c.(pos := c.pos + 1));
  }

  /**
   * A keycombo of nine one-character tokens, "a+b+c+d+e+f+g+h+i{" for
   * one: one more token than key_buf holds.
   */
  predicate NineTokens(text: string) {
    |text| == 18 && text[17] == '{' &&
    (forall j :: 0 <= j < 9 ==> TokenChar(text[2 * j])) &&
    (forall j :: 0 <= j < 8 ==> text[2 * j + 1] == '+')
  }

  /** The first n one-character tokens of such a combo. */
  function Singles(text: string, n: nat): (toks: seq<string>)
    requires NineTokens(text) && n <= 9
    ensures |toks| == n && forall j :: 0 <= j < n ==> toks[j] == [text[2 * j]]
  {
    seq(n, j requires 0 <= j < n => [text[2 * j]])
  }

  /** Once n tokens are read, the split still ends on the ninth token's '+'. */
  lemma {:induction false} NineTokensOverflow(text: string, c: Cursor, n: nat)
    requires NineTokens(text) && n < MAXCOMBOLEN
    requires Fits(text, c) && c.loaded == |text| && c.pos == 2 * n
    ensures SplitLoop(text, c, Singles(text, n) + [""]).SplitOverflow?
    decreases MAXCOMBOLEN - n
  {
    var toks := Singles(text, n) + [""];
    SplitStep(text, c, toks);
    var toks1 := toks[..|toks| - 1] + [Last(toks) + [text[c.pos]]];
    assert toks[..|toks| - 1] == Singles(text, n);
    assert Last(toks) + [text[c.pos]] == [text[2 * n]];
    assert forall j :: 0 <= j < n + 1 ==> toks1[j] == [text[2 * j]];
    assert toks1 == Singles(text, n + 1);
    var c1 := c.(pos := c.pos + 1);
    SplitPlusStep(text, c1, toks1);
    if n + 1 < MAXCOMBOLEN {
      NineTokensOverflow(text, c1.(pos := c1.pos + 1), n + 1);
    }
  }

  /**
   * A combo of nine tokens, such as "a+b+c+d+e+f+g+h+i{", reaches the
   * ninth '+'-separated token with key_buf full: the case where
   * xhd_config_parse_keycombo writes past key_buf. The model rejects
   * the entry instead.
   */
  lemma {:induction false} KeycomboOverflowExample(text: string, resolve: string -> Keysym)
    requires NineTokens(text)
    ensures KeycomboAt(text, Start, resolve).ComboOverflow?
    ensures HotkeyEntryAt(text, Start, resolve).Fail?
  {
    var c := Cursor(0, |text|, true, 0);
    assert Read(text, Start) == Read(text, c);
    assert SplitLoop(text, Start, [""]) == SplitLoop(text, c, [""]);
    assert Singles(text, 0) + [""] == [""];
    NineTokensOverflow(text, c, 0);
  }

  /** A one-letter mode with no hotkeys, "x{}", in a fully fetched text. */
  lemma {:induction false} EmptyModeAt(text: string, c: Cursor, x: char, resolve: string -> Keysym)
    requires Fits(text, c) && c.loaded == |text| && c.pos + 3 <= |text|
    requires text[c.pos] == x && text[c.pos + 1] == '{' && text[c.pos + 2] == '}'
    requires !IsWhitespace(x) && x != '{'
    ensures ModeEntryAt(text, c, resolve) == Ok(ModeEntry([x], []), c.(pos := c.pos + 3, lines := c.lines))
  {
    var c1 := c.(pos := c.pos + 1);
    var c2 := c.(pos := c.pos + 2);
    assert Read(text, c) == (x, c1);
    assert Read(text, c1) == ('{', c2);
    assert NameLoop(text, c1, [x]) == Ok([x], c1);
    assert |""| < MAXNAMELEN - 1 && "" + [x] == [x];
    assert NameLoop(text, c, "") == NameLoop(text, Read(text, c).1, "" + [Read(text, c).0]);
    assert NameLoop(text, c, "") == NameLoop(text, c1, [x]);
    assert ExpectAt(text, c1, '{') == (true, c2);
    assert Trim(text, c2) == c2;
    assert HotkeyListAt(text, c2, resolve) == Ok([], c2);
  }

  /** A mode name character: not whitespace, not a brace. */
  predicate NameChar(x: char) {
    !IsWhitespace(x) && x != '{' && x != '}' && x != NUL
  }

  /**
   * As written, xhd_config_parse_config_file stops after the first mode
   * entry of a file shorter than MAXBUFLEN, such as "a{}b{}": the first
   * block read already sets feof.
   */
  lemma {:induction false} ConfigFileAsWrittenStopsEarly(text: string, x: char, y: char, resolve: string -> Keysym)
    requires text == [x, '{', '}', y, '{', '}'] && NameChar(x) && NameChar(y)
    ensures ConfigFileAt(text, resolve).Ok?
    ensures ConfigFileAt(text, resolve).value == [ModeEntry([x], [])]
  {
    var c0 := Cursor(0, 6, true, 0);
    assert Trim(text, Start) == c0;
    EmptyModeAt(text, c0, x, resolve);
    var ms: seq<ModeEntry> := [ModeEntry([x], [])];
    assert [] + ms == ms;
    assert ConfigLoop(text, Start, [], resolve) == ConfigLoop(text, Cursor(3, 6, true, 0), ms, resolve);
  }

  /** Read to the end of the input, the same file yields both modes. */
  lemma {:induction false} ConfigFileIntendedReadsAll(text: string, x: char, y: char, resolve: string -> Keysym)
    requires text == [x, '{', '}', y, '{', '}'] && NameChar(x) && NameChar(y)
    ensures ConfigFileIntended(text, resolve).Ok?
    ensures ConfigFileIntended(text, resolve).value == [ModeEntry([x], []), ModeEntry([y], [])]
  {
    var c0 := Cursor(0, 6, true, 0);
    var c3 := Cursor(3, 6, true, 0);
    var c6 := Cursor(6, 6, true, 0);
    assert Trim(text, Start) == c0;
    EmptyModeAt(text, c0, x, resolve);
    assert Trim(text, c3) == c3;
    EmptyModeAt(text, c3, y, resolve);
    assert Trim(text, c6) == c6;
    assert Peek(text, c6) == (NUL, c6);
    var m1: seq<ModeEntry> := [ModeEntry([x], [])];
    var ms := m1 + [ModeEntry([y], [])];
    assert [] + m1 == m1;
    assert ConfigLoopIntended(text, c6, ms, resolve) == Ok(ms, c6);
    assert Peek(text, c3) == (y, c3);
    assert ConfigLoopIntended(text, c3, m1, resolve) == ConfigLoopIntended(text, c6, ms, resolve);
    assert Peek(text, c0) == (x, c0);
    assert ConfigLoopIntended(text, Start, [], resolve) == ConfigLoopIntended(text, c3, m1, resolve);
  }
}

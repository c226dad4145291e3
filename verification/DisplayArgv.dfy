/**
 Displaying arguments in logs (`process.rs`), and exactly when splitting the display
 (`backend.rs`) gives the arguments back.
 */
module DisplayArgv {
  import opened Wrappers
  import opened Seqs
  import opened Text
  import opened ShellSplit

  // ---------------------------------------------------------------------- the display ---

  /** Whether string debugging shows a character as itself.  Beyond ASCII that is the
      language's printability table, which is left open. */
  predicate Shown(c: char, printable: char -> bool) {
    if c as int < 0x80 then 0x20 <= c as int < 0x7F else printable(c)
  }

  /** A character as string debugging prints it. */
  function DebugChar(c: char, printable: char -> bool): string {
    if c == '\0' then "\\0"
    else if c == '\t' then "\\t"
    else if c == '\r' then "\\r"
    else if c == '\n' then "\\n"
    else if c == '"' || c == '\\' then ['\\', c]
    else if Shown(c, printable) then [c]
    else "\\u{" + HexDigits(c as int) + "}"
  }

  /** What that comes to in ASCII: the graphic characters and the space as themselves, two of
      them behind a backslash, and the others by a letter or by their code. */
  lemma AsciiDebug(c: char, printable: char -> bool)
    requires c as int < 0x80
    ensures ' ' <= c <= '~' ==> DebugChar(c, printable) == if c == '"' || c == '\\' then ['\\', c] else [c]
    ensures DebugChar('\t', printable) == "\\t" && DebugChar('\n', printable) == "\\n"
    ensures DebugChar('\r', printable) == "\\r" && DebugChar('\0', printable) == "\\0"
    ensures (c < ' ' || c > '~') && c !in {'\t', '\n', '\r', '\0'} ==>
              DebugChar(c, printable) == "\\u{" + HexDigits(c as int) + "}"
  {
  }

  function DebugText(s: string, printable: char -> bool): string {
    if s == "" then "" else DebugChar(s[0], printable) + DebugText(s[1..], printable)
  }

  /** `format!("{part:?}")`. */
  function Debug(s: string, printable: char -> bool): string {
    "\"" + DebugText(s, printable) + "\""
  }

  function Part(item: string, printable: char -> bool): string {
    if ' ' in item then Debug(item, printable) else item
  }

  function Parts(argv: seq<string>, printable: char -> bool): (parts: seq<string>)
    ensures |parts| == |argv| && forall k :: 0 <= k < |parts| ==> parts[k] == Part(argv[k], printable)
  {
    if argv == [] then [] else [Part(argv[0], printable)] + Parts(argv[1..], printable)
  }

  /** `display_argv`. */
  function Display(argv: seq<string>, printable: char -> bool): string {
    Join(Parts(argv, printable), " ")
  }

  // ------------------------------------------------------- how the display reads back ---

  /** The characters that splitting reads from the debug form of one. */
  function Reread(c: char, printable: char -> bool): string {
    if c == '\0' then "0"
    else if c == '\t' then "t"
    else if c == '\r' then "r"
    else if c == '\n' then "n"
    else if c == '"' || c == '\\' || Shown(c, printable) then [c]
    else "u{" + HexDigits(c as int) + "}"
  }

  function RereadText(s: string, printable: char -> bool): string {
    if s == "" then "" else Reread(s[0], printable) + RereadText(s[1..], printable)
  }

  lemma {:induction false} LexInside(w: string, rest: string)
    requires '"' !in w && '\\' !in w
    ensures Lex(w + rest, DOUBLE) == Lits(w) + Lex(rest, DOUBLE)
  {
    if w == "" {
      assert w + rest == rest;
    } else {
      assert w[0] in w && (w + rest)[1..] == w[1..] + rest;
      LexInside(w[1..], rest);
      Associative([Lit(w[0])], Lits(w[1..]), Lex(rest, DOUBLE));
    }
  }

  lemma LexEscaped(c: char, rest: string)
    ensures Lex(['\\', c] + rest, DOUBLE) == [Lit(c)] + Lex(rest, DOUBLE)
  {
    assert (['\\', c] + rest)[2..] == rest;
  }

  lemma OneLit(c: char)
    ensures Lits([c]) == [Lit(c)]
  {
    assert [c][1..] == "";
  }

  lemma UnicodeEscapeIsPlain(n: nat)
    ensures '"' !in HexDigits(n) + "}" && '\\' !in HexDigits(n) + "}"
    ensures ' ' !in HexDigits(n) + "}"
  {
    HexRoundTrip(n);
  }

  lemma LexDebugChar(c: char, printable: char -> bool, rest: string)
    ensures Lex(DebugChar(c, printable) + rest, DOUBLE) == Lits(Reread(c, printable)) + Lex(rest, DOUBLE)
  {
    hide Lex, Lits, HexDigits;
    OneLit(c);
    OneLit('0');
    OneLit('t');
    OneLit('r');
    OneLit('n');
    if c == '\0' {
      LexEscaped('0', rest);
    } else if c == '\t' {
      LexEscaped('t', rest);
    } else if c == '\r' {
      LexEscaped('r', rest);
    } else if c == '\n' {
      LexEscaped('n', rest);
    } else if c == '"' || c == '\\' {
      LexEscaped(c, rest);
    } else if Shown(c, printable) {
      LexInside([c], rest);
    } else {
      var digits := "{" + HexDigits(c as int) + "}";
      UnicodeEscapeIsPlain(c as int);
      assert DebugChar(c, printable) + rest == ['\\', 'u'] + (digits + rest);
      LexEscaped('u', digits + rest);
      assert digits == "{" + (HexDigits(c as int) + "}");
      LexInside(digits, rest);
      OneLit('u');
      LitsConcat("u", digits);
      assert "u" + digits == Reread(c, printable);
      Associative([Lit('u')], Lits(digits), Lex(rest, DOUBLE));
    }
  }

  lemma NoLits()
    ensures Lits("") == []
  {
  }

  lemma {:induction false} LexDebugText(s: string, printable: char -> bool, rest: string)
    ensures Lex(DebugText(s, printable) + rest, DOUBLE) == Lits(RereadText(s, printable)) + Lex(rest, DOUBLE)
  {
    hide Lex, Lits, DebugChar, Reread;
    if s == "" {
      NoLits();
      assert "" + rest == rest;
    } else {
      Associative(DebugChar(s[0], printable), DebugText(s[1..], printable), rest);
      LexDebugChar(s[0], printable, DebugText(s[1..], printable) + rest);
      LexDebugText(s[1..], printable, rest);
      LitsConcat(Reread(s[0], printable), RereadText(s[1..], printable));
      Associative(Lits(Reread(s[0], printable)), Lits(RereadText(s[1..], printable)), Lex(rest, DOUBLE));
    }
  }

  /** A debugged item always reads back as one argument. */
  lemma DebugReads(s: string, printable: char -> bool)
    ensures ReadsAs(Debug(s, printable), RereadText(s, printable))
  {
    forall rest: string
      ensures Lex(DebugText(s, printable) + rest, DOUBLE) == Lits(RereadText(s, printable)) + Lex(rest, DOUBLE)
    {
      LexDebugText(s, printable, rest);
    }
    InQuotes(DebugText(s, printable), '"', RereadText(s, printable));
  }

  /** A character that the debug form and the splitter keep. */
  predicate Kept(c: char, printable: char -> bool) {
    c == '"' || c == '\\' || Shown(c, printable)
  }

  /** The argument the splitter reads is the item exactly when every character is kept. */
  lemma {:induction false} RereadIsSame(s: string, printable: char -> bool)
    ensures RereadText(s, printable) == s <==> forall c :: c in s ==> Kept(c, printable)
  {
    hide HexDigits;
    if s != "" {
      RereadIsSame(s[1..], printable);
      assert s == [s[0]] + s[1..];
      if Kept(s[0], printable) {
        assert RereadText(s, printable)[1..] == RereadText(s[1..], printable);
      } else {
        assert RereadText(s, printable)[0] == Reread(s[0], printable)[0];
        assert s[0] in s;
      }
    }
  }

  // ------------------------------------------------------------------ the faithful items ---

  /** A character that outside quotes stands for itself. */
  predicate Plain(c: char) {
    !IsWhitespace(c) && c != '\'' && c != '"' && c != '\\'
  }

  /** The items the display shows without loss. */
  predicate Faithful(item: string, printable: char -> bool) {
    && item != ""
    && if ' ' in item then forall c :: c in item ==> Kept(c, printable) else forall c :: c in item ==> Plain(c)
  }

  lemma {:induction false} LexPlain(w: string, rest: string)
    requires forall c :: c in w ==> Plain(c)
    ensures Lex(w + rest, None) == Lits(w) + Lex(rest, None)
  {
    if w == "" {
      assert w + rest == rest;
    } else {
      assert w[0] in w && (w + rest)[1..] == w[1..] + rest;
      LexPlain(w[1..], rest);
      Associative([Lit(w[0])], Lits(w[1..]), Lex(rest, None));
    }
  }

  lemma FaithfulReads(item: string, printable: char -> bool)
    requires Faithful(item, printable)
    ensures ReadsAs(Part(item, printable), item)
  {
    if ' ' in item {
      DebugReads(item, printable);
      RereadIsSame(item, printable);
    } else {
      forall rest: string ensures Lex(item + rest, None) == Lits(item) + Lex(rest, None) {
        LexPlain(item, rest);
      }
    }
  }

  // -------------------------------------------------- an unfaithful item is not read back ---

  lemma {:induction false} SplitStarts(s: string, current: string, quote: Option<char>)
    requires current != ""
    ensures var out := SplitFrom(s, current, quote); out != [] && current <= out[0]
    decreases |s|
  {
    hide IsWhitespace;
    if s == "" {
    } else if s[0] == '\\' {
      if |s| > 1 {
        SplitStarts(s[2..], current + [s[1]], quote);
      }
    } else if quote.Some? {
      if s[0] == quote.value {
        SplitStarts(s[1..], current, None);
      } else {
        SplitStarts(s[1..], current + [s[0]], quote);
      }
    } else if s[0] == '\'' || s[0] == '"' {
      SplitStarts(s[1..], current, Some(s[0]));
    } else if !IsWhitespace(s[0]) {
      SplitStarts(s[1..], current + [s[0]], None);
    }
  }

  /** Pushing `c` after `x[..o]` and still reading `x` means `c` is the next character. */
  lemma NextIs(x: string, o: nat, c: char, s: string, quote: Option<char>)
    requires o < |x|
    requires var out := SplitFrom(s, x[..o] + [c], quote); out != [] && out[0] == x
    ensures c == x[o] && x[..o] + [c] == x[..o + 1]
  {
    SplitStarts(s, x[..o] + [c], quote);
    assert (x[..o] + [c])[o] == c;
  }

  lemma SpaceIsWhitespace()
    ensures IsWhitespace(' ')
  {
  }

  lemma LagEnd(x: string, tail: string, o: nat, quote: Option<char>)
    requires ' ' !in x && (tail == "" || tail[0] == ' ') && o < |x| && quote != Some(' ')
    requires var out := SplitFrom(tail, x[..o], quote); out != [] && out[0] == x
    ensures o == 0 && SplitFrom(tail, x[..o], quote) == SplitFrom(tail, "", None)
  {
    if tail != "" {
      if quote.Some? {
        NextIs(x, o, ' ', tail[1..], quote);
        assert false;
      } else {
        SpaceIsWhitespace();
      }
    }
  }

  /** Once the reading lags behind an item without spaces, it never reads that item:
      either it read nothing at all from the item, or it is cut short or meets the space. */
  lemma {:induction false} Lag(x: string, tail: string, p: nat, o: nat, quote: Option<char>)
    requires ' ' !in x && (tail == "" || tail[0] == ' ') && o < p <= |x| && quote != Some(' ')
    requires var out := SplitFrom(x[p..] + tail, x[..o], quote); out != [] && out[0] == x
    ensures o == 0 && SplitFrom(x[p..] + tail, x[..o], quote) == SplitFrom(tail, "", None)
    decreases |x| - p
  {
    hide IsWhitespace;
    var s := x[p..] + tail;
    if p == |x| {
      assert s == tail;
      LagEnd(x, tail, o, quote);
    } else {
      assert s[0] == x[p] && s[1..] == x[p + 1..] + tail;
      if x[p] == '\\' {
        if p + 1 < |x| {
          assert s[2..] == x[p + 2..] + tail;
          NextIs(x, o, x[p + 1], s[2..], quote);
          Lag(x, tail, p + 2, o + 1, quote);
        } else if tail != "" {
          assert s[1] == ' ';
          NextIs(x, o, ' ', s[2..], quote);
          assert false;
        }
      } else if quote.Some? {
        if x[p] == quote.value {
          Lag(x, tail, p + 1, o, None);
        } else {
          NextIs(x, o, x[p], s[1..], quote);
          Lag(x, tail, p + 1, o + 1, quote);
        }
      } else if x[p] == '\'' || x[p] == '"' {
        Lag(x, tail, p + 1, o, Some(x[p]));
      } else if IsWhitespace(x[p]) {
        if o == 0 {
          assert Flush("") + SplitFrom(s[1..], "", None) == SplitFrom(s[1..], "", None);
          Lag(x, tail, p + 1, 0, None);
        }
      } else {
        NextIs(x, o, x[p], s[1..], None);
        Lag(x, tail, p + 1, o + 1, None);
      }
    }
  }

  /** An item without spaces that is read back is all plain, or nothing was read from it. */
  lemma {:induction false} PlainOrUnread(x: string, tail: string, p: nat)
    requires ' ' !in x && (tail == "" || tail[0] == ' ') && p <= |x|
    requires var out := SplitFrom(x[p..] + tail, x[..p], None); out != [] && out[0] == x
    ensures || (forall c :: c in x[p..] ==> Plain(c))
            || (p == 0 && SplitFrom(x[p..] + tail, x[..p], None) == SplitFrom(tail, "", None))
    decreases |x| - p
  {
    hide IsWhitespace;
    if p < |x| {
      var s := x[p..] + tail;
      assert s[0] == x[p] && s[1..] == x[p + 1..] + tail;
      if x[p] == '\\' {
        if p + 1 < |x| {
          assert s[2..] == x[p + 2..] + tail;
          NextIs(x, p, x[p + 1], s[2..], None);
          Lag(x, tail, p + 2, p + 1, None);
        } else if tail != "" {
          assert s[1] == ' ';
          NextIs(x, p, ' ', s[2..], None);
          assert false;
        }
      } else if x[p] == '\'' || x[p] == '"' {
        Lag(x, tail, p + 1, p, Some(x[p]));
      } else if IsWhitespace(x[p]) {
        if p == 0 {
          assert Flush("") + SplitFrom(s[1..], "", None) == SplitFrom(s[1..], "", None);
          Lag(x, tail, 1, 0, None);
        }
      } else {
        NextIs(x, p, x[p], s[1..], None);
        PlainOrUnread(x, tail, p + 1);
        assert x[p..] == [x[p]] + x[p + 1..];
      }
    }
  }

  // ----------------------------------------------------------------- counting whitespace ---

  function Spaces(s: string): nat {
    if s == "" then 0 else (if IsWhitespace(s[0]) then 1 else 0) + Spaces(s[1..])
  }

  function TotalSpaces(items: seq<string>): nat {
    if items == [] then 0 else Spaces(items[0]) + TotalSpaces(items[1..])
  }

  function Blanks(tokens: seq<Token>): nat {
    if tokens == [] then 0 else (if tokens[0].Blank? then 1 else 0) + Blanks(tokens[1..])
  }

  function LitSpaces(tokens: seq<Token>): nat {
    if tokens == [] then 0
    else (if tokens[0].Lit? && IsWhitespace(tokens[0].c) then 1 else 0) + LitSpaces(tokens[1..])
  }

  lemma {:induction false} SpacesConcat(a: string, b: string)
    ensures Spaces(a + b) == Spaces(a) + Spaces(b)
  {
    hide IsWhitespace;
    if a == "" {
      assert a + b == b;
    } else {
      assert (a + b)[1..] == a[1..] + b;
      SpacesConcat(a[1..], b);
    }
  }

  lemma {:induction false} TotalConcat(a: seq<string>, b: seq<string>)
    ensures TotalSpaces(a + b) == TotalSpaces(a) + TotalSpaces(b)
  {
    if a == [] {
      assert a + b == b;
    } else {
      assert (a + b)[1..] == a[1..] + b;
      TotalConcat(a[1..], b);
    }
  }

  lemma OneToken(t: Token, rest: seq<Token>)
    ensures Blanks([t] + rest) == (if t.Blank? then 1 else 0) + Blanks(rest)
    ensures LitSpaces([t] + rest) == (if t.Lit? && IsWhitespace(t.c) then 1 else 0) + LitSpaces(rest)
  {
    assert ([t] + rest)[1..] == rest;
  }

  /** Every blank and every whitespace literal comes from a whitespace character. */
  lemma {:induction false} LexCounts(s: string, quote: Option<char>)
    ensures Blanks(Lex(s, quote)) + LitSpaces(Lex(s, quote)) <= Spaces(s)
    decreases |s|
  {
    hide IsWhitespace;
    if s == "" {
    } else if s[0] == '\\' {
      if |s| > 1 {
        LexCounts(s[2..], quote);
        OneToken(Lit(s[1]), Lex(s[2..], quote));
        assert Spaces(s[1..]) == (if IsWhitespace(s[1]) then 1 else 0) + Spaces(s[2..]);
      }
    } else if quote.Some? {
      if s[0] == quote.value {
        LexCounts(s[1..], None);
      } else {
        LexCounts(s[1..], quote);
        OneToken(Lit(s[0]), Lex(s[1..], quote));
      }
    } else if s[0] == '\'' || s[0] == '"' {
      LexCounts(s[1..], Some(s[0]));
    } else {
      LexCounts(s[1..], None);
      OneToken(if IsWhitespace(s[0]) then Blank else Lit(s[0]), Lex(s[1..], None));
    }
  }

  lemma FlushCounts(current: string)
    ensures TotalSpaces(Flush(current)) == Spaces(current)
  {
    if current != "" {
      assert [current][1..] == [];
    }
  }

  /** The whitespace in the arguments is the whitespace literals, and blanks bound how
      many arguments there are. */
  lemma {:induction false} GroupCounts(tokens: seq<Token>, current: string)
    ensures TotalSpaces(Group(tokens, current)) == Spaces(current) + LitSpaces(tokens)
    ensures |Group(tokens, current)| <= Blanks(tokens) + 1
  {
    hide IsWhitespace;
    if tokens == [] {
      FlushCounts(current);
    } else {
      match tokens[0]
      case Lit(c) =>
        GroupCounts(tokens[1..], current + [c]);
        SpacesConcat(current, [c]);
        assert [c][1..] == "";
      case Blank =>
        GroupCounts(tokens[1..], "");
        FlushCounts(current);
        TotalConcat(Flush(current), Group(tokens[1..], ""));
    }
  }

  lemma {:induction false} SolidSpaces(s: string)
    requires forall c :: c in s ==> !IsWhitespace(c)
    ensures Spaces(s) == 0
  {
    if s != "" {
      assert s[0] in s;
      SolidSpaces(s[1..]);
    }
  }

  lemma DebugCharSpaces(c: char, printable: char -> bool)
    ensures Spaces(DebugChar(c, printable)) <= Spaces([c])
  {
    if Shown(c, printable) && c != '"' && c != '\\' {
    } else {
      forall x | x in DebugChar(c, printable) ensures !IsWhitespace(x) {}
      SolidSpaces(DebugChar(c, printable));
    }
  }

  lemma {:induction false} DebugTextSpaces(s: string, printable: char -> bool)
    ensures Spaces(DebugText(s, printable)) <= Spaces(s)
  {
    hide DebugChar, IsWhitespace;
    if s != "" {
      DebugCharSpaces(s[0], printable);
      DebugTextSpaces(s[1..], printable);
      SpacesConcat(DebugChar(s[0], printable), DebugText(s[1..], printable));
      SpacesConcat([s[0]], s[1..]);
      assert s == [s[0]] + s[1..];
    }
  }

  lemma PartSpaces(item: string, printable: char -> bool)
    ensures Spaces(Part(item, printable)) <= Spaces(item)
  {
    if ' ' in item {
      DebugTextSpaces(item, printable);
      SpacesConcat("\"" + DebugText(item, printable), "\"");
      SpacesConcat("\"", DebugText(item, printable));
      SolidSpaces("\"");
    }
  }

  lemma DisplayStep(argv: seq<string>, printable: char -> bool)
    requires argv != []
    ensures |argv| == 1 ==> Display(argv, printable) == Part(argv[0], printable)
    ensures |argv| > 1 ==>
      Display(argv, printable) == Part(argv[0], printable) + " " + Display(argv[1..], printable)
  {
  }

  lemma {:induction false} DisplaySpaces(argv: seq<string>, printable: char -> bool)
    requires argv != []
    ensures Spaces(Display(argv, printable)) <= |argv| - 1 + TotalSpaces(argv)
  {
    hide Part;
    PartSpaces(argv[0], printable);
    if |argv| > 1 {
      DisplaySpaces(argv[1..], printable);
      DisplayStep(argv, printable);
      SpacesConcat(Part(argv[0], printable) + " ", Display(argv[1..], printable));
      SpacesConcat(Part(argv[0], printable), " ");
      assert " "[1..] == "";
      hide Display;
    }
  }

  lemma NoSpaces()
    ensures Spaces("") == 0
  {
  }

  /** The display of some arguments never reads as one argument more. */
  lemma NeverOneMore(x: string, rest: seq<string>, printable: char -> bool)
    requires rest != []
    ensures ShellSplit.Split(Display(rest, printable)) != [x] + rest
  {
    var shown := Display(rest, printable);
    SplitIsGroupedLex(shown, "", None);
    LexCounts(shown, None);
    GroupCounts(Lex(shown, None), "");
    DisplaySpaces(rest, printable);
    assert ([x] + rest)[1..] == rest;
    hide Display, Lex, Group, Spaces, LitSpaces, Blanks;
    assert Spaces("") == 0 by { NoSpaces(); }
  }

  // ------------------------------------------------------------------------ the theorem ---

  lemma EmptyReread(s: string, printable: char -> bool)
    ensures RereadText(s, printable) == "" <==> s == ""
  {
    if s != "" {
      assert Reread(s[0], printable) != "";
    }
  }

  lemma SpacedFirst(argv: seq<string>, printable: char -> bool)
    requires argv != [] && ' ' in argv[0] && ShellSplit.Split(Display(argv, printable)) == argv
    ensures Faithful(argv[0], printable)
  {
    var x := argv[0];
    hide SplitFrom, ReadsAs, IsWhitespace;
    DisplayStep(argv, printable);
    DebugReads(x, printable);
    RereadIsSame(x, printable);
    if RereadText(x, printable) == "" {
      EmptyReread(x, printable);
      assert false;
    }
    FirstRead(Part(x, printable), RereadText(x, printable), Display(argv[1..], printable));
  }

  lemma UnreadTail(tail: string, rest: string)
    ensures SplitFrom("", "", None) == []
    ensures tail == " " + rest ==> SplitFrom(tail, "", None) == ShellSplit.Split(rest)
  {
    if tail == " " + rest {
      assert tail[1..] == rest;
      assert Flush("") + SplitFrom(rest, "", None) == SplitFrom(rest, "", None);
    }
  }

  lemma UnspacedFirst(argv: seq<string>, printable: char -> bool)
    requires argv != [] && ' ' !in argv[0] && ShellSplit.Split(Display(argv, printable)) == argv
    ensures Faithful(argv[0], printable)
  {
    var x := argv[0];
    var tail := if |argv| == 1 then "" else " " + Display(argv[1..], printable);
    hide IsWhitespace, Display, SplitFrom;
    DisplayStep(argv, printable);
    assert Display(argv, printable) == x + tail && x[0..] == x && x[..0] == "";
    NoEmptyArguments(Display(argv, printable));
    assert x in argv;
    PlainOrUnread(x, tail, 0);
    if exists c :: c in x && !Plain(c) {
      UnreadTail(tail, if |argv| == 1 then "" else Display(argv[1..], printable));
      assert argv == [x] + argv[1..];
      NeverOneMore(x, argv[1..], printable);
      assert false;
    }
  }

  lemma AllFaithful(argv: seq<string>, printable: char -> bool)
    requires forall k :: 0 <= k < |argv| ==> Faithful(argv[k], printable)
    ensures ShellSplit.Split(Display(argv, printable)) == argv
  {
    forall k | 0 <= k < |argv| ensures ReadsAs(Parts(argv, printable)[k], argv[k]) && argv[k] != "" {
      assert Faithful(argv[k], printable);
      FaithfulReads(argv[k], printable);
    }
    JoinedParts(Parts(argv, printable), argv);
  }

  lemma FaithfulIsNonEmpty(x: string, printable: char -> bool)
    requires Faithful(x, printable)
    ensures x != ""
  {
  }

  lemma {:induction false} AllRead(argv: seq<string>, printable: char -> bool)
    requires ShellSplit.Split(Display(argv, printable)) == argv
    ensures forall k :: 0 <= k < |argv| ==> Faithful(argv[k], printable)
  {
    hide Faithful, SplitFrom, Part, ReadsAs;
    if argv != [] {
      var x := argv[0];
      if ' ' in x {
        SpacedFirst(argv, printable);
      } else {
        UnspacedFirst(argv, printable);
      }
      FaithfulReads(x, printable);
      FaithfulIsNonEmpty(x, printable);
      DisplayStep(argv, printable);
      FirstRead(Part(x, printable), x, Display(argv[1..], printable));
      if |argv| > 1 {
        assert argv[1..] == ShellSplit.Split(Display(argv[1..], printable));
        AllRead(argv[1..], printable);
        forall k | 0 <= k < |argv| ensures Faithful(argv[k], printable) {
          assert k > 0 ==> argv[k] == argv[1..][k - 1];
        }
      }
    }
  }

  /** Splitting the display gives the arguments back exactly when every item is non-empty
      and either has a space and only characters that debugging keeps, or has no
      whitespace, quote or backslash. */
  lemma {:induction false} DisplayRoundTrip(argv: seq<string>, printable: char -> bool)
    ensures ShellSplit.Split(Display(argv, printable)) == argv
       <==> forall k :: 0 <= k < |argv| ==> Faithful(argv[k], printable)
  {
    if forall k :: 0 <= k < |argv| ==> Faithful(argv[k], printable) {
      AllFaithful(argv, printable);
    } else if ShellSplit.Split(Display(argv, printable)) == argv {
      AllRead(argv, printable);
    }
  }
}

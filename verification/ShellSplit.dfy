/**
 Splitting a command line into arguments (`backend.rs`) against the display of arguments
 in logs (`process.rs`).
 */
module ShellSplit {
  import opened Wrappers
  import opened Seqs
  import opened Text

  // --------------------------------------------------------------------- the splitter ---

  /** A finished argument; an empty one is dropped. */
  function Flush(current: string): seq<string> {
    if current == "" then [] else [current]
  }

  /** The arguments read from `s`, inside an argument `current` and a quote. */
  function SplitFrom(s: string, current: string, quote: Option<char>): seq<string>
    decreases |s|
  {
    if s == "" then Flush(current)
    else if s[0] == '\\' then
      if |s| == 1 then Flush(current) else SplitFrom(s[2..], current + [s[1]], quote)
    else if quote.Some? then
      if s[0] == quote.value then SplitFrom(s[1..], current, None)
      else SplitFrom(s[1..], current + [s[0]], quote)
    else if s[0] == '\'' || s[0] == '"' then SplitFrom(s[1..], current, Some(s[0]))
    else if IsWhitespace(s[0]) then Flush(current) + SplitFrom(s[1..], "", None)
    else SplitFrom(s[1..], current + [s[0]], None)
  }

  function Split(s: string): seq<string> {
    SplitFrom(s, "", None)
  }

  /** `shell_split`. */
  method ShellSplit(command: string) returns (out: seq<string>)
    ensures out == Split(command)
  {
    hide IsWhitespace;
    out := [];
    var current := "";
    var quote: Option<char> := None;
    var i := 0;
    assert command[0..] == command;
    while i < |command|
      invariant i <= |command|
      invariant out + SplitFrom(command[i..], current, quote) == Split(command)
    {
      var ch := command[i];
      assert command[i..][0] == ch && command[i..][1..] == command[i + 1..];
      i := i + 1;
      if quote.Some? {
        if ch == '\\' {
          if i < |command| {
            assert command[i - 1..][1] == command[i] && command[i - 1..][2..] == command[i + 1..];
            current := current + [command[i]];
            i := i + 1;
          }
        } else if ch == quote.value {
          quote := None;
        } else {
          current := current + [ch];
        }
      } else if ch == '\'' || ch == '"' {
        quote := Some(ch);
      } else if ch == '\\' {
        if i < |command| {
          assert command[i - 1..][1] == command[i] && command[i - 1..][2..] == command[i + 1..];
          current := current + [command[i]];
          i := i + 1;
        }
      } else if IsWhitespace(ch) {
        if current != "" {
          Associative(out, [current], SplitFrom(command[i..], "", None));
          out := out + [current];
          current := "";
        }
      } else {
        current := current + [ch];
      }
    }
    assert command[i..] == "";
    if current != "" {
      out := out + [current];
    }
  }

  // ---------------------------------------------------------- the same in two passes ---

  /** What a character of the command line counts as, once quotes are resolved. */
  datatype Token = Lit(c: char) | Blank

  function Lex(s: string, quote: Option<char>): seq<Token>
    decreases |s|
  {
    if s == "" then []
    else if s[0] == '\\' then
      if |s| == 1 then [] else [Lit(s[1])] + Lex(s[2..], quote)
    else if quote.Some? then
      if s[0] == quote.value then Lex(s[1..], None) else [Lit(s[0])] + Lex(s[1..], quote)
    else if s[0] == '\'' || s[0] == '"' then Lex(s[1..], Some(s[0]))
    else [if IsWhitespace(s[0]) then Blank else Lit(s[0])] + Lex(s[1..], None)
  }

  /** The runs of literals between blanks. */
  function Group(tokens: seq<Token>, current: string): seq<string> {
    if tokens == [] then Flush(current)
    else
      match tokens[0]
      case Lit(c) => Group(tokens[1..], current + [c])
      case Blank => Flush(current) + Group(tokens[1..], "")
  }

  lemma GroupLit(c: char, tokens: seq<Token>, current: string)
    ensures Group([Lit(c)] + tokens, current) == Group(tokens, current + [c])
  {
    assert ([Lit(c)] + tokens)[1..] == tokens;
  }

  lemma GroupBlank(tokens: seq<Token>, current: string)
    ensures Group([Blank] + tokens, current) == Flush(current) + Group(tokens, "")
  {
    assert ([Blank] + tokens)[1..] == tokens;
  }

  /** The one-pass splitter groups the literals that quote resolution leaves. */
  lemma {:induction false} SplitIsGroupedLex(s: string, current: string, quote: Option<char>)
    ensures SplitFrom(s, current, quote) == Group(Lex(s, quote), current)
    decreases |s|
  {
    hide IsWhitespace;
    if s == "" {
    } else if s[0] == '\\' {
      if |s| > 1 {
        SplitIsGroupedLex(s[2..], current + [s[1]], quote);
        GroupLit(s[1], Lex(s[2..], quote), current);
      }
    } else if quote.Some? {
      if s[0] == quote.value {
        SplitIsGroupedLex(s[1..], current, None);
      } else {
        SplitIsGroupedLex(s[1..], current + [s[0]], quote);
        GroupLit(s[0], Lex(s[1..], quote), current);
      }
    } else if s[0] == '\'' || s[0] == '"' {
      SplitIsGroupedLex(s[1..], current, Some(s[0]));
    } else if IsWhitespace(s[0]) {
      SplitIsGroupedLex(s[1..], "", None);
      GroupBlank(Lex(s[1..], None), current);
    } else {
      SplitIsGroupedLex(s[1..], current + [s[0]], None);
      GroupLit(s[0], Lex(s[1..], None), current);
    }
  }

  /** A blank cuts the arguments before it from those after it. */
  lemma {:induction false} GroupConcat(before: seq<Token>, after: seq<Token>, current: string)
    ensures Group(before + [Blank] + after, current) == Group(before, current) + Group(after, "")
  {
    if before == [] {
      assert before + [Blank] + after == [Blank] + after;
      GroupBlank(after, current);
    } else {
      assert (before + [Blank] + after)[1..] == before[1..] + [Blank] + after;
      match before[0]
      case Lit(c) => GroupConcat(before[1..], after, current + [c]);
      case Blank =>
        GroupConcat(before[1..], after, "");
        Associative(Flush(current), Group(before[1..], ""), Group(after, ""));
    }
  }

  lemma {:induction false} GroupsAreNonEmpty(tokens: seq<Token>, current: string, k: nat)
    requires k < |Group(tokens, current)|
    ensures Group(tokens, current)[k] != ""
  {
    if tokens != [] {
      match tokens[0]
      case Lit(c) => GroupsAreNonEmpty(tokens[1..], current + [c], k);
      case Blank =>
        if k >= |Flush(current)| {
          GroupsAreNonEmpty(tokens[1..], "", k - |Flush(current)|);
        }
    }
  }

  /** No argument is empty. */
  lemma NoEmptyArguments(s: string)
    ensures "" !in Split(s)
  {
    SplitIsGroupedLex(s, "", None);
    if "" in Split(s) {
      var k :| 0 <= k < |Split(s)| && Split(s)[k] == "";
      GroupsAreNonEmpty(Lex(s, None), "", k);
    }
  }

  // ------------------------------------------------------------- reading joined parts ---

  function Lits(w: string): seq<Token> {
    if w == "" then [] else [Lit(w[0])] + Lits(w[1..])
  }

  lemma {:induction false} LitsConcat(a: string, b: string)
    ensures Lits(a + b) == Lits(a) + Lits(b)
  {
    if a == "" {
      assert a + b == b;
    } else {
      assert (a + b)[1..] == a[1..] + b;
      LitsConcat(a[1..], b);
    }
  }

  lemma {:induction false} GroupOfLits(w: string, current: string)
    ensures Group(Lits(w), current) == Flush(current + w)
  {
    if w == "" {
      assert current + w == current;
    } else {
      GroupLit(w[0], Lits(w[1..]), current);
      GroupOfLits(w[1..], current + [w[0]]);
      assert current + [w[0]] + w[1..] == current + w;
    }
  }

  /** Text that, wherever it starts outside quotes, reads as the literals `w`. */
  ghost predicate ReadsAs(part: string, w: string) {
    forall rest: string :: Lex(part + rest, None) == Lits(w) + Lex(rest, None)
  }

  lemma LexSpace(rest: string)
    ensures Lex(" " + rest, None) == [Blank] + Lex(rest, None)
  {
    assert (" " + rest)[1..] == rest;
  }

  lemma LexNothing()
    ensures forall q :: Lex("", q) == []
  {
  }

  lemma FirstRead(part: string, w: string, rest: string)
    requires ReadsAs(part, w) && w != ""
    ensures Split(part) == [w]
    ensures Split(part + " " + rest) == [w] + Split(rest)
  {
    SplitIsGroupedLex(part, "", None);
    SplitIsGroupedLex(part + " " + rest, "", None);
    SplitIsGroupedLex(rest, "", None);
    hide Lex, Group, SplitFrom, Lits;
    assert part + "" == part && Lex(part + "", None) == Lits(w) + Lex("", None);
    LexNothing();
    assert Lits(w) + [] == Lits(w);
    GroupOfLits(w, "");
    assert "" + w == w;
    assert part + (" " + rest) == part + " " + rest;
    LexSpace(rest);
    assert Lex(part + " " + rest, None) == Lits(w) + [Blank] + Lex(rest, None);
    GroupConcat(Lits(w), Lex(rest, None), "");
  }

  /** Parts that read as non-empty words, joined by spaces, split into those words. */
  lemma {:induction false} JoinedParts(parts: seq<string>, words: seq<string>)
    requires |parts| == |words|
    requires forall k :: 0 <= k < |parts| ==> ReadsAs(parts[k], words[k]) && words[k] != ""
    ensures Split(Join(parts, " ")) == words
  {
    if parts != [] {
      FirstRead(parts[0], words[0], Join(parts[1..], " "));
      hide SplitFrom, ReadsAs;
      JoinedParts(parts[1..], words[1..]);
      assert words == [words[0]] + words[1..];
    }
  }

  // --------------------------------------------------------------------- re-quoting ---

  /** What must be written for a character inside quotes `q`. */
  function EscapeChar(c: char, q: char): string {
    if c == q || c == '\\' then ['\\', c] else [c]
  }

  function Escape(w: string, q: char): string {
    if w == "" then "" else EscapeChar(w[0], q) + Escape(w[1..], q)
  }

  function Quoted(w: string, q: char): string {
    [q] + Escape(w, q) + [q]
  }

  function QuoteAll(words: seq<string>): (parts: seq<string>)
    ensures |parts| == |words| && forall k :: 0 <= k < |parts| ==> parts[k] == Quoted(words[k], '"')
  {
    if words == [] then [] else [Quoted(words[0], '"')] + QuoteAll(words[1..])
  }

  const DOUBLE := Some('"')

  lemma LexEscapedChar(c: char, q: char, rest: string)
    ensures Lex(EscapeChar(c, q) + rest, Some(q)) == [Lit(c)] + Lex(rest, Some(q))
  {
    assert (EscapeChar(c, q) + rest)[|EscapeChar(c, q)|..] == rest;
  }

  lemma {:induction false} EscapedReads(w: string, q: char, rest: string)
    ensures Lex(Escape(w, q) + rest, Some(q)) == Lits(w) + Lex(rest, Some(q))
  {
    if w == "" {
      assert Escape(w, q) + rest == rest;
    } else {
      var more := Escape(w[1..], q) + rest;
      Associative(EscapeChar(w[0], q), Escape(w[1..], q), rest);
      LexEscapedChar(w[0], q, more);
      EscapedReads(w[1..], q, rest);
      hide Lex;
      Associative([Lit(w[0])], Lits(w[1..]), Lex(rest, Some(q)));
    }
  }

  /** Text between quotes, given how its inside reads. */
  lemma InQuotes(inside: string, q: char, w: string)
    requires q == '"' || q == '\''
    requires forall rest: string :: Lex(inside + rest, Some(q)) == Lits(w) + Lex(rest, Some(q))
    ensures ReadsAs([q] + inside + [q], w)
  {
    forall rest: string ensures Lex([q] + inside + [q] + rest, None) == Lits(w) + Lex(rest, None) {
      var all := [q] + inside + [q] + rest;
      assert all[1..] == inside + ([q] + rest);
      assert ([q] + rest)[1..] == rest;
      assert Lex([q] + rest, Some(q)) == Lex(rest, None);
    }
  }

  lemma QuotedReads(w: string, q: char)
    requires q == '"' || q == '\''
    ensures ReadsAs(Quoted(w, q), w)
  {
    forall rest: string ensures Lex(Escape(w, q) + rest, Some(q)) == Lits(w) + Lex(rest, Some(q)) {
      EscapedReads(w, q, rest);
    }
    InQuotes(Escape(w, q), q, w);
  }

  /** Quoting arguments and splitting gives them back exactly when none is empty. */
  lemma QuotingRoundTrip(words: seq<string>)
    ensures Split(Join(QuoteAll(words), " ")) == words <==> "" !in words
  {
    NoEmptyArguments(Join(QuoteAll(words), " "));
    if "" !in words {
      forall k | 0 <= k < |words| ensures ReadsAs(QuoteAll(words)[k], words[k]) && words[k] != "" {
        QuotedReads(words[k], '"');
      }
      JoinedParts(QuoteAll(words), words);
    }
  }

  /** Re-quoting what any command line splits into, and splitting again, changes nothing. */
  lemma RequotingRoundTrip(s: string)
    ensures Split(Join(QuoteAll(Split(s)), " ")) == Split(s)
  {
    NoEmptyArguments(s);
    QuotingRoundTrip(Split(s));
  }

  // -------------------------------------------------------------- every way of writing ---

  /** A piece of an argument as it may be written. */
  datatype Piece = Bare(text: string) | InSingle(text: string) | InDouble(text: string) | Slashed(c: char) {
    predicate Valid() {
      Bare? ==> forall k :: 0 <= k < |text| ==> text[k] !in {'\\', '\'', '"'} && !IsWhitespace(text[k])
    }

    function Written(): string {
      match this
      case Bare(text) => text
      case InSingle(text) => Quoted(text, '\'')
      case InDouble(text) => Quoted(text, '"')
      case Slashed(c) => ['\\', c]
    }

    /** The characters it stands for. */
    function Meant(): string {
      if Slashed? then [c] else text
    }
  }

  function WrittenAll(pieces: seq<Piece>): string {
    if pieces == [] then "" else pieces[0].Written() + WrittenAll(pieces[1..])
  }

  function MeantAll(pieces: seq<Piece>): string {
    if pieces == [] then "" else pieces[0].Meant() + MeantAll(pieces[1..])
  }

  lemma {:induction false} LexBare(text: string, rest: string)
    requires Bare(text).Valid()
    ensures Lex(text + rest, None) == Lits(text) + Lex(rest, None)
  {
    hide IsWhitespace;
    if text == "" {
      assert text + rest == rest;
    } else {
      assert (text + rest)[1..] == text[1..] + rest;
      assert forall k :: 0 <= k < |text| - 1 ==> text[1..][k] == text[k + 1];
      LexBare(text[1..], rest);
      hide Lex;
      Associative([Lit(text[0])], Lits(text[1..]), Lex(rest, None));
    }
  }

  lemma PieceReads(piece: Piece)
    requires piece.Valid()
    ensures ReadsAs(piece.Written(), piece.Meant())
  {
    match piece {
      case Bare(text) =>
        forall rest: string ensures Lex(text + rest, None) == Lits(text) + Lex(rest, None) {
          LexBare(text, rest);
        }
      case InSingle(text) => QuotedReads(text, '\'');
      case InDouble(text) => QuotedReads(text, '"');
      case Slashed(c) =>
        forall rest: string ensures Lex(['\\', c] + rest, None) == Lits([c]) + Lex(rest, None) {
          assert (['\\', c] + rest)[2..] == rest;
          assert [c][1..] == "";
        }
    }
  }

  lemma BothRead(a: string, v: string, b: string, w: string)
    requires ReadsAs(a, v) && ReadsAs(b, w)
    ensures ReadsAs(a + b, v + w)
  {
    hide Lex;
    LitsConcat(v, w);
    forall rest: string ensures Lex(a + b + rest, None) == Lits(v + w) + Lex(rest, None) {
      assert a + b + rest == a + (b + rest);
      assert Lex(a + (b + rest), None) == Lits(v) + Lex(b + rest, None);
      Associative(Lits(v), Lits(w), Lex(rest, None));
    }
  }

  lemma NothingReads()
    ensures ReadsAs("", "")
  {
    forall rest: string ensures Lex("" + rest, None) == Lits("") + Lex(rest, None) {
      assert "" + rest == rest && Lits("") + Lex(rest, None) == Lex(rest, None);
    }
  }

  lemma {:induction false} PiecesRead(pieces: seq<Piece>)
    requires forall k :: 0 <= k < |pieces| ==> pieces[k].Valid()
    ensures ReadsAs(WrittenAll(pieces), MeantAll(pieces))
  {
    hide ReadsAs, Piece.Valid;
    if pieces == [] {
      NothingReads();
    } else {
      PieceReads(pieces[0]);
      PiecesRead(pieces[1..]);
      BothRead(pieces[0].Written(), pieces[0].Meant(), WrittenAll(pieces[1..]), MeantAll(pieces[1..]));
    }
  }

  lemma {:induction false} GapBefore(gap: string, s: string)
    requires Text.Blank(gap)
    ensures Split(gap + s) == Split(s)
  {
    hide IsWhitespace;
    if gap == "" {
      assert gap + s == s;
    } else {
      assert gap[0] !in {'\\', '\'', '"'} by { WhitespaceIs(gap[0]); }
      assert (gap + s)[1..] == gap[1..] + s;
      GapBefore(gap[1..], s);
    }
  }

  lemma BlankIsNoQuote(c: char)
    requires IsWhitespace(c)
    ensures c !in {'\\', '\'', '"'}
  {
  }

  /** A part that reads as a word, before a gap. */
  lemma ReadBeforeGap(part: string, w: string, gap: string, rest: string)
    requires ReadsAs(part, w) && w != "" && Text.Blank(gap) && gap != ""
    ensures Split(part + gap + rest) == [w] + Split(rest)
  {
    hide IsWhitespace, Lits;
    var more := gap[1..] + rest;
    BlankIsNoQuote(gap[0]);
    assert part + gap + rest == part + ([gap[0]] + more);
    assert ([gap[0]] + more)[1..] == more;
    assert Lex([gap[0]] + more, None) == [Blank] + Lex(more, None);
    SplitIsGroupedLex(part + gap + rest, "", None);
    SplitIsGroupedLex(more, "", None);
    hide Lex, Group, SplitFrom;
    assert Lex(part + ([gap[0]] + more), None) == Lits(w) + [Blank] + Lex(more, None);
    GroupConcat(Lits(w), Lex(more, None), "");
    GroupOfLits(w, "");
    assert "" + w == w;
    assert Text.Blank(gap[1..]);
    GapBefore(gap[1..], rest);
  }

  lemma SplitNothing()
    ensures Split("") == []
  {
  }

  lemma NoGap()
    ensures Text.Blank("")
  {
  }

  /** Parts that read as words, with any whitespace between, before and behind them. */
  lemma {:induction false} SpreadParts(parts: seq<string>, words: seq<string>, gaps: seq<string>)
    requires |parts| == |words| && |gaps| == |parts| + 1 && Separates(gaps)
    requires forall k :: 0 <= k < |parts| ==> ReadsAs(parts[k], words[k]) && words[k] != ""
    ensures Split(Spread(parts, gaps)) == words
    decreases |parts|
  {
    hide SplitFrom, ReadsAs, Split, Text.Blank;
    assert Text.Blank(gaps[0]);
    if parts == [] {
      GapBefore(gaps[0], "");
      assert gaps[0] + "" == gaps[0];
      SplitNothing();
    } else {
      var rest := Spread(parts[1..], gaps[1..]);
      assert gaps[0] + parts[0] + rest == gaps[0] + (parts[0] + rest);
      GapBefore(gaps[0], parts[0] + rest);
      assert Text.Blank(gaps[1]);
      if |parts| == 1 {
        assert rest == gaps[1];
        if gaps[1] == "" {
          FirstRead(parts[0], words[0], "");
          assert parts[0] + rest == parts[0];
        } else {
          ReadBeforeGap(parts[0], words[0], gaps[1], "");
          assert parts[0] + gaps[1] + "" == parts[0] + rest;
          SplitNothing();
        }
      } else {
        var bare := [""] + gaps[2..];
        var tail := Spread(parts[1..], bare);
        NoGap();
        forall k | 0 <= k < |bare| ensures Text.Blank(bare[k]) && (0 < k < |bare| - 1 ==> bare[k] != "") {
          assert k > 0 ==> bare[k] == gaps[k + 1];
        }
        SpreadParts(parts[1..], words[1..], bare);
        assert bare[1..] == gaps[1..][1..];
        assert rest == gaps[1] + tail;
        ReadBeforeGap(parts[0], words[0], gaps[1], tail);
        assert parts[0] + gaps[1] + tail == parts[0] + rest;
      }
      assert words == [words[0]] + words[1..];
    }
  }

  /** A command line, however it is written: arguments made of bare text, either kind of
      quotes and escaped characters, side by side, and any whitespace around them, split into
      exactly the arguments meant. */
  lemma CommandLineReads(args: seq<seq<Piece>>, parts: seq<string>, words: seq<string>, gaps: seq<string>)
    requires |parts| == |words| == |args| && |gaps| == |args| + 1 && Separates(gaps)
    requires forall k :: 0 <= k < |args| ==> parts[k] == WrittenAll(args[k]) && words[k] == MeantAll(args[k]) != ""
    requires forall k :: 0 <= k < |args| ==> forall i :: 0 <= i < |args[k]| ==> args[k][i].Valid()
    ensures Split(Spread(parts, gaps)) == words
  {
    hide Split, Spread, ReadsAs, Piece.Valid, Separates;
    forall k | 0 <= k < |args| ensures ReadsAs(parts[k], words[k]) && words[k] != "" {
      PiecesRead(args[k]);
    }
    SpreadParts(parts, words, gaps);
  }

  /** A quote that is never closed runs to the end, and a backslash at the very end is lost. */
  lemma LeftOpen(w: string, q: char, part: string)
    requires (q == '"' || q == '\'') && w != "" && ReadsAs(part, w)
    ensures Split([q] + Escape(w, q)) == [w] && Split(part + "\\") == [w]
  {
    var open := [q] + Escape(w, q);
    assert open[1..] == Escape(w, q) + "";
    EscapedReads(w, q, "");
    SplitIsGroupedLex(open, "", None);
    SplitIsGroupedLex(part + "\\", "", None);
    assert Lex("\\", None) == [] && Lex("", Some(q)) == [];
    hide Lex, Group, SplitFrom, Lits;
    assert Lits(w) + [] == Lits(w);
    GroupOfLits(w, "");
    assert "" + w == w;
  }
}

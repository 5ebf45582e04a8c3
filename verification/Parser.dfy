/** What printing and reading command lines preserves, and the shell's parser with its three
    accumulators. */
module CommandParser {
  import opened CommandLine
  import opened Results

  // ----- Tokens, printed and read again -----

  /** A mark, a run of operators, a word, or a quoted piece with its quotes. */
  predicate IsTokenText(t: string) {
    t != "" && (
      (|t| == 1 && IsMark(t[0])) || All(IsOp, t) || All(IsPlain, t) ||
      (|t| >= 2 && IsQuote(t[0]) && t[|t| - 1] == t[0] && t[0] !in t[1..|t| - 1]))
  }

  function PieceOf(t: string): (p: Piece)
    requires IsTokenText(t)
    ensures Proper(p) && IsToken(p) && Text(p) == t
  {
    if |t| == 1 && IsMark(t[0]) then Mark(t[0])
    else if All(IsOp, t) then Ops(t)
    else if All(IsPlain, t) then Word(t)
    else
      assert t == [t[0]] + t[1..|t| - 1] + [t[0]];
      Quoted(t[0], t[1..|t| - 1])
  }

  lemma {:induction false} EmittedAreTokens(line: Line)
    requires Reading(line)
    ensures forall t :: t in Emitted(line) ==> IsTokenText(t)
    decreases line
  {
    if line.Then? {
      hide IsTokenText, Proper;
      EmittedAreTokens(line.before);
    }
  }

  /** Tokens printed with single spaces between them. */
  function Joined(ts: seq<string>): string {
    if ts == [] then ""
    else if |ts| == 1 then ts[0]
    else Joined(ts[..|ts| - 1]) + [' '] + ts[|ts| - 1]
  }

  function LineOf(ts: seq<string>): Line
    requires forall t :: t in ts ==> IsTokenText(t)
  {
    if ts == [] then Blank
    else if |ts| == 1 then Then(Blank, PieceOf(ts[0]))
    else
      assert forall t :: t in ts[..|ts| - 1] ==> t in ts;
      Then(Then(LineOf(ts[..|ts| - 1]), Space(' ')), PieceOf(ts[|ts| - 1]))
  }

  lemma {:induction false} LineOfReads(ts: seq<string>)
    requires forall t :: t in ts ==> IsTokenText(t)
    ensures Reading(LineOf(ts)) && Spelling(LineOf(ts)) == Joined(ts) && Emitted(LineOf(ts)) == ts
    ensures LineOf(ts).Then? ==> !LineOf(ts).piece.Open?
    decreases |ts|
  {
    hide IsTokenText, Proper, Text, PieceOf;
    if |ts| > 1 {
      var front, t := ts[..|ts| - 1], ts[|ts| - 1];
      assert ts == front + [t] && forall u :: u in front ==> u in ts;
      LineOfReads(front);
      TokenFits(LineOf(front), t);
      assert LineOf(ts) == Then(Then(LineOf(front), Space(' ')), PieceOf(t));
    } else if |ts| == 1 {
      TokenFits(Blank, ts[0]);
    }
  }

  lemma TokenFits(line: Line, t: string)
    requires Reading(line) && IsTokenText(t) && (line.Then? ==> !line.piece.Open?)
    ensures var more := Then(Then(line, Space(' ')), PieceOf(t));
      && Reading(more) && Spelling(more) == Spelling(line) + [' '] + t && Emitted(more) == Emitted(line) + [t]
    ensures var only := Then(Blank, PieceOf(t)); Reading(only) && Spelling(only) == t && Emitted(only) == [t]
  {
    hide IsTokenText, PieceOf;
    assert Proper(PieceOf(t)) && IsToken(PieceOf(t)) && Text(PieceOf(t)) == t;
    hide Proper, Text;
  }

  /** Reading what has been printed gives the tokens back. */
  lemma PrintedReadsBack(ts: seq<string>)
    requires forall t :: t in ts ==> IsTokenText(t)
    ensures Tokens(Joined(ts)) == ts
  {
    LineOfReads(ts);
    ReadingIsUnique(LineOf(ts));
  }

  /** Tokenizing is idempotent through printing. */
  lemma TokenizingIsIdempotent(s: string)
    ensures forall t :: t in Tokens(s) ==> IsTokenText(t)
    ensures Tokens(Joined(Tokens(s))) == Tokens(s)
  {
    EveryLineReads(s);
    EmittedAreTokens(ReadingOf(s));
    PrintedReadsBack(Tokens(s));
  }

  // ----- Nothing is lost but white space and an unfinished quote -----

  /** The quote that is still open at the end of s, found by looking at quotes alone. */
  function QuoteAfter(s: string): Option<char> {
    if s == "" then None else
      var c := s[|s| - 1];
      match QuoteAfter(s[..|s| - 1])
      case Some(q) => if c == q then None else Some(q)
      case None => if IsQuote(c) then Some(c) else None
  }

  /** The characters of s except its unquoted white space. */
  function Stripped(s: string): string {
    if s == "" then "" else
      var c := s[|s| - 1];
      Stripped(s[..|s| - 1]) + (if IsSpace(c) && QuoteAfter(s[..|s| - 1]).None? then "" else [c])
  }

  function Concat(ts: seq<string>): string {
    if ts == [] then "" else Concat(ts[..|ts| - 1]) + ts[|ts| - 1]
  }

  lemma ConcatPush(ts: seq<string>, t: string)
    ensures Concat(ts + [t]) == Concat(ts) + t
  {
    assert (ts + [t])[..|ts + [t]| - 1] == ts;
  }

  /** What the parser has stored, and its three accumulators, after reading a line. */
  function Stored(line: Line): seq<string> {
    if line.Then? && (line.piece.Word? || line.piece.Ops?) then Emitted(line.before) else Emitted(line)
  }

  function Cmd(line: Line): string {
    if line.Then? && line.piece.Word? then line.piece.text else ""
  }

  function Op(line: Line): string {
    if line.Then? && line.piece.Ops? then line.piece.text else ""
  }

  function Quote(line: Line): string {
    if line.Then? && line.piece.Open? then Text(line.piece) else ""
  }

  function One(s: string): seq<string> {
    if s == "" then [] else [s]
  }

  lemma FinishingStores(line: Line)
    requires Reading(line)
    ensures Stored(line) + One(Cmd(line)) + One(Op(line)) == Emitted(line)
  {
    hide All;
    assert line.Then? ==> Proper(line.piece);
  }

  lemma EmittedAndQuote(line: Line)
    requires Reading(line)
    ensures Concat(Emitted(line)) + Quote(line) == Concat(Stored(line)) + Cmd(line) + Op(line) + Quote(line)
  {
    hide Concat, Reading;
    if line.Then? {
      ConcatPush(Emitted(line.before), Text(line.piece));
    }
  }

  /** A new piece of one character. */
  lemma PieceKeepsText(line: Line, p: Piece)
    requires (line.Then? ==> !line.piece.Open?) && |Text(p)| == 1
    ensures Concat(Emitted(Then(line, p))) + Quote(Then(line, p))
      == Concat(Emitted(line)) + Quote(line) + (if p.Space? then "" else Text(p))
  {
    hide Concat;
    ConcatPush(Emitted(line), Text(p));
    if !IsToken(p) {
      assert Emitted(Then(line, p)) == Emitted(line);
    }
  }

  /** A piece that has grown by one character. */
  lemma GrowthKeepsText(line: Line, p: Piece, p': Piece, c: char)
    requires !p.Space? && !p'.Space? && Text(p') == Text(p) + [c]
    ensures Concat(Emitted(Then(line, p'))) + Quote(Then(line, p'))
      == Concat(Emitted(Then(line, p))) + Quote(Then(line, p)) + [c]
  {
    hide Concat, Text;
    var kept := Concat(Emitted(line));
    ConcatPush(Emitted(line), Text(p));
    ConcatPush(Emitted(line), Text(p'));
    assert Emitted(line) + [] == Emitted(line);
    assert kept + (Text(p) + [c]) == kept + Text(p) + [c];
  }

  lemma ExtendKeepsText(line: Line, c: char)
    requires Reading(line)
    ensures var inQuote := line.Then? && line.piece.Open?;
      Concat(Emitted(Extend(line, c))) + Quote(Extend(line, c))
      == Concat(Emitted(line)) + Quote(line) + (if IsSpace(c) && !inQuote then "" else [c])
  {
    hide Concat, Reading, IsSpace, IsMark, IsOp, IsQuote, Emitted, Quote;
    var next := Extend(line, c);
    if next.before == line {
      PieceKeepsText(line, next.piece);
    } else {
      assert Text(next.piece) == Text(line.piece) + [c];
      GrowthKeepsText(line.before, line.piece, next.piece, c);
    }
  }

  lemma {:induction false} QuoteIsOpen(s: string)
    ensures var line := ReadingOf(s);
      QuoteAfter(s) == if line.Then? && line.piece.Open? then Some(line.piece.q) else None
    decreases |s|
  {
    if s != "" {
      QuoteIsOpen(s[..|s| - 1]);
    }
  }

  /** At every point of a line at most one accumulator is in use, and what has been stored, with that
      accumulator, is what has been read except its unquoted white space. */
  lemma {:induction false} NothingIsLost(s: string)
    ensures var line := ReadingOf(s);
      && Concat(Stored(line)) + Cmd(line) + Op(line) + Quote(line) == Stripped(s)
      && (Cmd(line) == "" || Op(line) == "") && (Cmd(line) == "" || Quote(line) == "")
      && (Op(line) == "" || Quote(line) == "")
    decreases |s|
  {
    EveryLineReads(s);
    hide Extend, Concat, Text, IsSpace, Reading, Spelling, Emitted, QuoteAfter;
    EmittedAndQuote(ReadingOf(s));
    if s != "" {
      var before := s[..|s| - 1];
      EveryLineReads(before);
      NothingIsLost(before);
      EmittedAndQuote(ReadingOf(before));
      ExtendKeepsText(ReadingOf(before), s[|s| - 1]);
      QuoteIsOpen(before);
    } else {
      NoTokens();
    }
  }

  lemma NoTokens()
    ensures Concat(Emitted(Blank)) == ""
  {
  }

  /** A line loses its unquoted white space and nothing else, unless it ends inside a quote. */
  lemma OnlySpaceIsLost(s: string)
    ensures Concat(Tokens(s)) == Stripped(s) <==> QuoteAfter(s) == None
  {
    hide QuoteAfter, Stripped, Concat, Extend;
    EveryLineReads(s);
    QuoteIsOpen(s);
    NothingIsLost(s);
    EmittedAndQuote(ReadingOf(s));
  }

  /** Inside a quote. */
  lemma QuoteTakes(line: Line, c: char)
    requires Reading(line) && Quote(line) != ""
    ensures var next, quote := Extend(line, c), Quote(line) + [c];
      && Cmd(line) == Op(line) == Cmd(next) == Op(next) == ""
      && Stored(next) == (if quote[0] == c then Stored(line) + [quote] else Stored(line))
      && Quote(next) == (if quote[0] == c then "" else quote)
  {
    hide Reading;
  }

  lemma QuoteOpens(line: Line)
    ensures Quote(line) == "" ==> (line.Then? ==> !line.piece.Open?)
  {
  }

  lemma SpaceIsNeither(c: char)
    ensures IsSpace(c) ==> !IsMark(c) && !IsQuote(c)
  {
  }

  /** Outside quotes, a character that does not go into a word. */
  lemma {:induction false} SeparatorTakes(line: Line, c: char)
    requires Reading(line) && Quote(line) == "" && (IsSpace(c) || IsMark(c) || IsQuote(c))
    ensures var next, stored := Extend(line, c), Stored(line) + One(Cmd(line)) + One(Op(line));
      && Stored(next) == (if IsMark(c) then stored + [[c]] else stored)
      && Cmd(next) == Op(next) == "" && Quote(next) == (if IsQuote(c) then [c] else "")
  {
    hide All, IsSpace, IsPlain;
    FinishingStores(line);
    assert line.Then? ==> !line.piece.Open? by { QuoteOpens(line); }
    var next := Extend(line, c);
    assert next == Then(line, if IsSpace(c) then Space(c) else if IsMark(c) then Mark(c) else Open(c, ""));
    assert IsSpace(c) ==> !IsMark(c) && !IsQuote(c) by { SpaceIsNeither(c); }
    hide Extend, Reading, Stored;
  }

  /** Outside quotes, a character that goes into a word or a run of operators. */
  lemma LetterTakes(line: Line, c: char)
    requires Reading(line) && Quote(line) == "" && !IsSpace(c) && !IsMark(c) && !IsQuote(c)
    ensures var next := Extend(line, c);
      && Quote(next) == ""
      && Stored(next) == Stored(line) + One(if IsOp(c) then Cmd(line) else Op(line))
      && Cmd(next) == (if IsOp(c) then "" else Cmd(line) + [c])
      && Op(next) == (if IsOp(c) then Op(line) + [c] else "")
  {
    FinishingStores(line);
    hide Reading;
  }

  // ----- The parser -----

  class Parser {
    var operands: seq<string>

    constructor ()
      ensures operands == []
    {
      operands := [];
    }

    /** Stores s unless it is empty, and clears it. */
    method DropStringToBuffer(s: string) returns (cleared: string)
      modifies this
      ensures cleared == "" && operands == old(operands) + One(s)
    {
      if |s| > 0 {
        operands := operands + [s];
      }
      cleared := "";
    }

    ghost predicate Shows(line: Line, cmd: string, op: string, quote: string)
      reads this
    {
      operands == Stored(line) && cmd == Cmd(line) && op == Op(line) && quote == Quote(line)
    }

    lemma BlankShows()
      requires operands == []
      ensures Reading(Blank) && Shows(Blank, "", "", "")
    {
    }

    /** One turn of the loop of Parse. */
    method Take(c: char, cmd: string, op: string, quote: string, ghost line: Line)
      returns (cmd': string, op': string, quote': string)
      requires Reading(line) && Shows(line, cmd, op, quote)
      modifies this
      ensures Shows(Extend(line, c), cmd', op', quote')
    {
      hide Extend, Stored, Cmd, Op, Quote, Reading;
      cmd', op', quote' := cmd, op, quote;
      if quote != "" {
        QuoteTakes(line, c);
      } else if IsSpace(c) || IsMark(c) || IsQuote(c) {
        SeparatorTakes(line, c);
      } else {
        LetterTakes(line, c);
      }
      if |quote| > 0 {
        quote' := quote + [c];
        if quote'[0] == c {
          quote' := DropStringToBuffer(quote');
        }
      } else if IsSpace(c) {
        cmd' := DropStringToBuffer(cmd);
        op' := DropStringToBuffer(op);
      } else if c == '<' || c == '>' || c == ';' {
        cmd' := DropStringToBuffer(cmd);
        op' := DropStringToBuffer(op);
        operands := operands + [[c]];
      } else if c == '&' || c == '|' {
        cmd' := DropStringToBuffer(cmd);
        op' := op + [c];
      } else if c == '\'' || c == '\"' {
        cmd' := DropStringToBuffer(cmd);
        op' := DropStringToBuffer(op);
        quote' := quote + [c];
      } else {
        op' := DropStringToBuffer(op);
        cmd' := cmd + [c];
      }
    }

    method Parse(command: string) returns (r: seq<string>)
      modifies this
      ensures r == operands == Tokens(command)
      ensures forall line :: Reading(line) && Spelling(line) == command ==> r == Emitted(line)
    {
      hide Reading, Extend, Spelling, Stored, Emitted, Cmd, Op, Quote, One;
      operands := [];
      var cmd, op, quote := "", "", "";
      var i := 0;
      ghost var line := Blank;
      BlankShows();
      while i < |command|
        invariant 0 <= i <= |command| && line == ReadingOf(command[..i])
        invariant Reading(line) && Shows(line, cmd, op, quote)
      {
        assert command[..i + 1][..i] == command[..i];
        cmd, op, quote := Take(command[i], cmd, op, quote, line);
        ExtendReads(line, command[i]);
        line := Extend(line, command[i]);
        i := i + 1;
      }
      assert command[..i] == command;
      FinishingStores(line);
      cmd := DropStringToBuffer(cmd);
      op := DropStringToBuffer(op);
      r := operands;
      forall l | Reading(l) && Spelling(l) == command ensures r == Emitted(l) {
        ReadingIsUnique(l);
      }
    }
  }
}

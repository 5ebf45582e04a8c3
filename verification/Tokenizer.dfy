/** The grammar of command lines: every line is, in exactly one way, a row of words, operators,
    quoted pieces and white space, and its tokens are read off that row. */
module CommandLine {

  // ----- Characters -----

  predicate IsSpace(c: char) {
    c == ' ' || 9 <= c as int <= 13
  }

  predicate IsMark(c: char) {
    c == '<' || c == '>' || c == ';'
  }

  predicate IsOp(c: char) {
    c == '&' || c == '|'
  }

  predicate IsQuote(c: char) {
    c == '\'' || c == '\"'
  }

  predicate IsPlain(c: char) {
    !IsSpace(c) && !IsMark(c) && !IsOp(c) && !IsQuote(c)
  }

  // ----- Lines as rows of pieces -----

  datatype Piece =
    | Space(c: char)
    | Word(text: string)
    | Ops(text: string)
    | Mark(c: char)
    | Quoted(q: char, body: string)
    | Open(q: char, body: string)

  /** A line, piece by piece, the last one outermost. */
  datatype Line = Blank | Then(before: Line, piece: Piece)

  predicate All(p: char -> bool, s: string) {
    forall i :: 0 <= i < |s| ==> p(s[i])
  }

  predicate Proper(p: Piece) {
    match p
    case Space(c) => IsSpace(c)
    case Word(t) => t != "" && All(IsPlain, t)
    case Ops(t) => t != "" && All(IsOp, t)
    case Mark(c) => IsMark(c)
    case Quoted(q, b) => IsQuote(q) && q !in b
    case Open(q, b) => IsQuote(q) && q !in b
  }

  /** Neighbouring words are one word, neighbouring operators one run; an open quote is last. */
  predicate Fits(line: Line, p: Piece) {
    line.Then? ==>
      !line.piece.Open? && !(line.piece.Word? && p.Word?) && !(line.piece.Ops? && p.Ops?)
  }

  predicate Reading(line: Line) {
    line.Then? ==> Reading(line.before) && Proper(line.piece) && Fits(line.before, line.piece)
  }

  function Text(p: Piece): string {
    match p
    case Space(c) => [c]
    case Word(t) => t
    case Ops(t) => t
    case Mark(c) => [c]
    case Quoted(q, b) => [q] + b + [q]
    case Open(q, b) => [q] + b
  }

  function Spelling(line: Line): string {
    if line.Blank? then "" else Spelling(line.before) + Text(line.piece)
  }

  predicate IsToken(p: Piece) {
    !p.Space? && !p.Open?
  }

  /** The tokens of a line; what follows an unmatched quote is not one. */
  function Emitted(line: Line): seq<string> {
    if line.Blank? then [] else
      Emitted(line.before) + (if IsToken(line.piece) then [Text(line.piece)] else [])
  }

  // ----- One character more, one character less -----

  function Extend(line: Line, c: char): Line {
    if line.Then? && line.piece.Open? then
      var Open(q, b) := line.piece;
      Then(line.before, if c == q then Quoted(q, b) else Open(q, b + [c]))
    else if IsSpace(c) then Then(line, Space(c))
    else if IsMark(c) then Then(line, Mark(c))
    else if IsOp(c) then
      if line.Then? && line.piece.Ops? then Then(line.before, Ops(line.piece.text + [c])) else Then(line, Ops([c]))
    else if IsQuote(c) then Then(line, Open(c, ""))
    else if line.Then? && line.piece.Word? then Then(line.before, Word(line.piece.text + [c]))
    else Then(line, Word([c]))
  }

  lemma ExtendReads(line: Line, c: char)
    requires Reading(line)
    ensures Reading(Extend(line, c)) && Spelling(Extend(line, c)) == Spelling(line) + [c]
  {
  }

  function Shrink(line: Line): Line
    requires line.Then?
  {
    match line.piece
    case Space(_) => line.before
    case Mark(_) => line.before
    case Word(t) => if |t| <= 1 then line.before else Then(line.before, Word(t[..|t| - 1]))
    case Ops(t) => if |t| <= 1 then line.before else Then(line.before, Ops(t[..|t| - 1]))
    case Quoted(q, b) => Then(line.before, Open(q, b))
    case Open(q, b) => if b == "" then line.before else Then(line.before, Open(q, b[..|b| - 1]))
  }

  lemma ShrinkIsReading(line: Line)
    requires Reading(line) && line.Then?
    ensures Reading(Shrink(line))
  {
    hide IsSpace, IsMark, IsOp, IsQuote, IsPlain;
  }

  lemma {:induction false} ShrinkSpells(line: Line)
    requires Reading(line) && line.Then?
    ensures Text(line.piece) != ""
    ensures Spelling(Shrink(line)) == Spelling(line)[..|Spelling(line)| - 1]
  {
    hide IsSpace, IsMark, IsOp, IsQuote, IsPlain, All;
    var p, s := line.piece, Spelling(line.before);
    assert Text(p) != "" && (s + Text(p))[..|s + Text(p)| - 1] == s + Text(p)[..|Text(p)| - 1];
    match p {
      case Quoted(q, b) => assert Text(p)[..|Text(p)| - 1] == [q] + b;
      case Open(q, b) => assert b != "" ==> Text(p)[..|Text(p)| - 1] == [q] + b[..|b| - 1];
      case _ =>
    }
  }

  lemma WordBack(line: Line, t: string)
    requires Proper(Word(t)) && Fits(line, Word(t))
    ensures Extend(Shrink(Then(line, Word(t))), t[|t| - 1]) == Then(line, Word(t))
  {
    assert IsPlain(t[|t| - 1]) && t == t[..|t| - 1] + [t[|t| - 1]];
  }

  lemma OpsBack(line: Line, t: string)
    requires Proper(Ops(t)) && Fits(line, Ops(t))
    ensures Extend(Shrink(Then(line, Ops(t))), t[|t| - 1]) == Then(line, Ops(t))
  {
    assert IsOp(t[|t| - 1]) && t == t[..|t| - 1] + [t[|t| - 1]];
  }

  lemma OpenBack(line: Line, q: char, b: string)
    requires Proper(Open(q, b)) && Fits(line, Open(q, b)) && b != ""
    ensures Extend(Shrink(Then(line, Open(q, b))), ([q] + b)[|b|]) == Then(line, Open(q, b))
  {
    assert b == b[..|b| - 1] + [b[|b| - 1]] && b[|b| - 1] in b;
  }

  lemma OthersBack(line: Line, p: Piece)
    requires Proper(p) && Fits(line, p)
    requires p.Space? || p.Mark? || p.Quoted? || (p.Open? && p.body == "")
    ensures Text(p) != "" && Extend(Shrink(Then(line, p)), Text(p)[|Text(p)| - 1]) == Then(line, p)
  {
  }

  lemma {:induction false} ExtendUndoesShrink(line: Line)
    requires Reading(line) && line.Then? && Text(line.piece) != ""
    ensures Extend(Shrink(line), Text(line.piece)[|Text(line.piece)| - 1]) == line
  {
    hide Extend, Shrink, Proper, Fits;
    match line.piece {
      case Word(t) => WordBack(line.before, t);
      case Ops(t) => OpsBack(line.before, t);
      case Open(q, b) =>
        if b == "" {
          OthersBack(line.before, line.piece);
        } else {
          OpenBack(line.before, q, b);
        }
      case _ => OthersBack(line.before, line.piece);
    }
  }

  // ----- Every line has exactly one reading -----

  function ReadingOf(s: string): Line {
    if s == "" then Blank else Extend(ReadingOf(s[..|s| - 1]), s[|s| - 1])
  }

  lemma {:induction false} EveryLineReads(s: string)
    ensures Reading(ReadingOf(s)) && Spelling(ReadingOf(s)) == s
    decreases |s|
  {
    if s != "" {
      EveryLineReads(s[..|s| - 1]);
      ExtendReads(ReadingOf(s[..|s| - 1]), s[|s| - 1]);
    }
  }

  lemma {:induction false} ReadingIsUnique(line: Line)
    requires Reading(line)
    ensures ReadingOf(Spelling(line)) == line
    decreases |Spelling(line)|
  {
    hide Reading, Extend, Shrink, Text;
    if line.Then? {
      ShrinkIsReading(line);
      ShrinkSpells(line);
      ExtendUndoesShrink(line);
      ReadingIsUnique(Shrink(line));
    }
  }

  function Tokens(s: string): seq<string> {
    Emitted(ReadingOf(s))
  }
}

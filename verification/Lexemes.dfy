/** The tokens of a command line in terms of its characters: where they lie, what is between them, and
    what each looks like. */
module Lexemes {
  import opened CommandLine

  predicate White(c: char) {
    c == ' ' || c == '\t' || c == '\n' || c == '\r' || c as int == 11 || c as int == 12
  }

  predicate WordLike(t: string) {
    t != "" && forall k :: 0 <= k < |t| ==> !White(t[k]) && t[k] !in "<>;&|\'\""
  }

  predicate OpsLike(t: string) {
    t != "" && forall k :: 0 <= k < |t| ==> t[k] in "&|"
  }

  /** In quotes of one kind, with no such quote between them. */
  predicate QuotedLike(t: string) {
    |t| >= 2 && t[0] in "\'\"" && t[|t| - 1] == t[0] && t[0] !in t[1..|t| - 1]
  }

  predicate Shapely(t: string) {
    WordLike(t) || OpsLike(t) || QuotedLike(t) || t == "<" || t == ">" || t == ";"
  }

  /** The i-th token lies at at[i] in the line, before the next one or the end. */
  ghost predicate LiesAt(s: string, ts: seq<string>, at: seq<nat>, end: nat, i: nat)
    requires i < |ts| == |at|
  {
    && at[i] + |ts[i]| <= (if i + 1 < |ts| then at[i + 1] else end) <= |s|
    && s[at[i]..at[i] + |ts[i]|] == ts[i]
  }

  ghost predicate Inside(ts: seq<string>, at: seq<nat>, x: int)
    requires |ts| == |at|
  {
    exists i :: 0 <= i < |ts| && at[i] <= x < at[i] + |ts[i]|
  }

  /** Two tokens with nothing between them are not two words, nor two runs of operators. */
  ghost predicate Distinguished(ts: seq<string>, at: seq<nat>, i: nat)
    requires i + 1 < |ts| == |at|
  {
    at[i + 1] == at[i] + |ts[i]| ==>
      !(WordLike(ts[i]) && WordLike(ts[i + 1])) && !(OpsLike(ts[i]) && OpsLike(ts[i + 1]))
  }

  /** The line s is cut into the tokens ts up to end, where it ends or an unmatched quote begins. */
  ghost predicate CutInto(s: string, ts: seq<string>, at: seq<nat>, end: nat) {
    && |ts| == |at| && end <= |s|
    && (end == |s| || (s[end] in "\'\"" && s[end] !in s[end + 1..]))
    && (forall i :: 0 <= i < |ts| ==> Shapely(ts[i]) && LiesAt(s, ts, at, end, i))
    && (forall x :: 0 <= x < end && !Inside(ts, at, x) ==> White(s[x]))
    && (forall i :: 0 <= i < |ts| - 1 ==> Distinguished(ts, at, i))
  }

  // ----- The kinds of characters -----

  ghost predicate ByCode(c: char) {
    && (IsSpace(c) <==> White(c)) && (IsMark(c) <==> c in "<>;") && (IsOp(c) <==> c in "&|")
    && (IsQuote(c) <==> c in "\'\"") && (IsPlain(c) <==> !White(c) && c !in "<>;&|\'\"")
  }

  lemma CharactersByCode(c: char)
    ensures ByCode(c)
  {
  }

  lemma PiecesAreShapely(p: Piece)
    requires Proper(p) && IsToken(p)
    ensures Shapely(Text(p)) && Text(p) != ""
    ensures WordLike(Text(p)) <==> p.Word?
    ensures OpsLike(Text(p)) <==> p.Ops?
  {
    hide IsSpace, IsMark, IsOp, IsQuote, IsPlain, White;
    var t := Text(p);
    forall k | 0 <= k < |t| ensures ByCode(t[k]) {
      CharactersByCode(t[k]);
    }
    var first := t[0];
    if p.Quoted? {
      assert t[1..|t| - 1] == p.body;
    }
  }

  // ----- The tokens of a reading -----

  function Places(line: Line): (at: seq<nat>)
    ensures |at| == |Emitted(line)|
  {
    if line.Blank? then [] else
      Places(line.before) + (if IsToken(line.piece) then [|Spelling(line.before)|] else [])
  }

  /** Where the tokens end: before a quote that is open. */
  function ClosedPart(line: Line): nat {
    if line.Then? && line.piece.Open? then |Spelling(line.before)| else |Spelling(line)|
  }

  lemma SpaceKeepsCut(s: string, ts: seq<string>, at: seq<nat>, c: char)
    requires CutInto(s, ts, at, |s|) && White(c)
    ensures CutInto(s + [c], ts, at, |s| + 1)
  {
    hide White, Shapely, Distinguished;
    var more := s + [c];
    forall i | 0 <= i < |ts| ensures LiesAt(more, ts, at, |more|, i) {
      assert LiesAt(s, ts, at, |s|, i);
      assert more[at[i]..at[i] + |ts[i]|] == s[at[i]..at[i] + |ts[i]|];
    }
  }

  lemma OpenKeepsCut(s: string, ts: seq<string>, at: seq<nat>, q: char, body: string)
    requires CutInto(s, ts, at, |s|) && q in "\'\"" && q !in body
    ensures CutInto(s + ([q] + body), ts, at, |s|)
  {
    hide White, Shapely, Distinguished;
    var more := s + ([q] + body);
    assert more[|s|] == q && more[|s| + 1..] == body;
    forall i | 0 <= i < |ts| ensures LiesAt(more, ts, at, |s|, i) {
      assert LiesAt(s, ts, at, |s|, i);
      assert more[at[i]..at[i] + |ts[i]|] == s[at[i]..at[i] + |ts[i]|];
    }
  }

  lemma TokenKeepsCut(s: string, ts: seq<string>, at: seq<nat>, t: string)
    requires CutInto(s, ts, at, |s|) && Shapely(t)
    requires ts != [] ==> Distinguished(ts + [t], at + [|s|], |ts| - 1)
    ensures CutInto(s + t, ts + [t], at + [|s|], |s + t|)
  {
    hide White, Shapely;
    var more, ts', at' := s + t, ts + [t], at + [|s|];
    forall i | 0 <= i < |ts'| ensures LiesAt(more, ts', at', |more|, i) {
      if i < |ts| {
        assert LiesAt(s, ts, at, |s|, i);
        assert more[at[i]..at[i] + |ts[i]|] == s[at[i]..at[i] + |ts[i]|];
      }
    }
    forall x | 0 <= x < |more| && !Inside(ts', at', x) ensures White(more[x]) {
      TokenStaysInside(ts, at, t, |s|, x);
    }
    forall i | 0 <= i < |ts| ensures Distinguished(ts', at', i) {
      assert i < |ts| - 1 ==> Distinguished(ts, at, i);
    }
  }

  lemma TokenStaysInside(ts: seq<string>, at: seq<nat>, t: string, place: nat, x: int)
    requires |ts| == |at|
    ensures Inside(ts, at, x) || place <= x < place + |t| ==> Inside(ts + [t], at + [place], x)
  {
    var ts', at' := ts + [t], at + [place];
    assert at'[|ts|] == place && ts'[|ts|] == t;
    if i :| 0 <= i < |ts| && at[i] <= x < at[i] + |ts[i]| {
      assert at'[i] == at[i] && ts'[i] == ts[i];
    }
  }

  /** What the last token of a reading is: its last piece, or something before that. */
  ghost predicate LastIs(line: Line) {
    line.Then? && Emitted(line) != [] ==>
      var ts, at := Emitted(line), Places(line);
      if IsToken(line.piece) then ts[|ts| - 1] == Text(line.piece)
      else at[|ts| - 1] + |ts[|ts| - 1]| <= |Spelling(line.before)|
  }

  lemma NextIsDistinguished(line: Line, p: Piece)
    requires Reading(line) && LastIs(line) && Proper(p) && IsToken(p) && Fits(line, p) && Emitted(line) != []
    ensures Distinguished(Emitted(line) + [Text(p)], Places(line) + [|Spelling(line)|], |Emitted(line)| - 1)
  {
    hide Shapely, WordLike, OpsLike, Emitted, Places, Spelling, Text;
    PiecesAreShapely(p);
    EmittedIsThen(line);
    if IsToken(line.piece) {
      PiecesAreShapely(line.piece);
    } else {
      SpellingIsThen(line);
    }
  }

  lemma EmittedIsThen(line: Line)
    requires Emitted(line) != []
    ensures line.Then?
  {
  }

  lemma SpellingIsThen(line: Line)
    requires Reading(line) && line.Then? && !IsToken(line.piece)
    ensures |Spelling(line.before)| < |Spelling(line)|
  {
  }

  /** A reading cuts its line, and the next piece goes on from there. */
  ghost predicate Cuts(line: Line) {
    CutInto(Spelling(line), Emitted(line), Places(line), ClosedPart(line)) && LastIs(line)
  }

  lemma ClosedIsAll(line: Line, p: Piece)
    requires Fits(line, p)
    ensures ClosedPart(line) == |Spelling(line)|
  {
  }

  lemma TokenStep(line: Line, p: Piece)
    requires Reading(line) && Cuts(line) && Proper(p) && Fits(line, p) && IsToken(p)
    ensures Cuts(Then(line, p))
  {
    ClosedIsAll(line, p);
    PiecesAreShapely(p);
    if Emitted(line) != [] {
      NextIsDistinguished(line, p);
    }
    TokenKeepsCut(Spelling(line), Emitted(line), Places(line), Text(p));
    hide CutInto, Distinguished, Shapely, Reading, Proper;
  }

  lemma SpaceStep(line: Line, c: char)
    requires Cuts(line) && IsSpace(c) && Fits(line, Space(c))
    ensures Cuts(Then(line, Space(c)))
  {
    ClosedIsAll(line, Space(c));
    CharactersByCode(c);
    LastEnds(Spelling(line), Emitted(line), Places(line));
    hide IsSpace, White;
    SpaceKeepsCut(Spelling(line), Emitted(line), Places(line), c);
    hide CutInto;
    assert Places(line) + [] == Places(line) && Emitted(line) + [] == Emitted(line);
  }

  lemma OpenStep(line: Line, q: char, body: string)
    requires Cuts(line) && Proper(Open(q, body)) && Fits(line, Open(q, body))
    ensures Cuts(Then(line, Open(q, body)))
  {
    ClosedIsAll(line, Open(q, body));
    CharactersByCode(q);
    LastEnds(Spelling(line), Emitted(line), Places(line));
    hide IsQuote;
    OpenKeepsCut(Spelling(line), Emitted(line), Places(line), q, body);
    hide CutInto;
    assert Places(line) + [] == Places(line) && Emitted(line) + [] == Emitted(line);
  }

  /** Every reading cuts its line. */
  lemma {:induction false} ReadingCuts(line: Line)
    requires Reading(line)
    ensures Cuts(line)
  {
    if line.Then? {
      ReadingCuts(line.before);
      hide Cuts, Fits;
      if IsToken(line.piece) {
        TokenStep(line.before, line.piece);
      } else if line.piece.Space? {
        SpaceStep(line.before, line.piece.c);
      } else {
        OpenStep(line.before, line.piece.q, line.piece.body);
      }
    }
  }

  lemma LastEnds(s: string, ts: seq<string>, at: seq<nat>)
    requires CutInto(s, ts, at, |s|)
    ensures ts != [] ==> at[|ts| - 1] + |ts[|ts| - 1]| <= |s|
  {
    assert ts != [] ==> LiesAt(s, ts, at, |s|, |ts| - 1);
  }

  /** The tokens of any line lie in it one after the other, with white space between them; each is a
      word, a run of operators, a mark, or quoted, and neighbouring words or operators are never two
      tokens. Only from an unmatched quote on there are none. */
  lemma TokensCutTheLine(s: string) returns (at: seq<nat>, end: nat)
    ensures CutInto(s, Tokens(s), at, end)
  {
    hide Reading;
    EveryLineReads(s);
    ReadingCuts(ReadingOf(s));
    at, end := Places(ReadingOf(s)), ClosedPart(ReadingOf(s));
  }
}

/** How the word list is read: lines of text through a buffer of 64 characters. */
module WordFile {

  const BUFFER: nat := 64

  /** How many characters fgets takes from a text that is not empty: one line with its line break,
      but no more than fit into the buffer beside the terminating zero. */
  function Taken(text: string, k: nat): (n: nat)
    requires k < |text| && k < BUFFER - 1
    ensures k < n <= |text| && n <= BUFFER - 1
    ensures text[n - 1] == '\n' || n == |text| || n == BUFFER - 1
    ensures forall i :: k <= i < n - 1 ==> text[i] != '\n'
    decreases |text| - k
  {
    if text[k] == '\n' || k + 1 == |text| || k + 1 == BUFFER - 1 then k + 1 else Taken(text, k + 1)
  }

  /** The words, each without the last character that was read for it. */
  function WordsOf(text: string): seq<string>
    decreases |text|
  {
    if text == "" then [] else
      var n := Taken(text, 0);
      [text[..n - 1]] + WordsOf(text[n..])
  }

  lemma OneMoreWord(text: string, i: nat, n: nat, words: seq<string>)
    requires i < |text| && n == Taken(text[i..], 0)
    ensures i + n <= |text|
    ensures words + WordsOf(text[i..]) == words + [text[i..i + n - 1]] + WordsOf(text[i + n..])
  {
    hide Taken;
    var rest := text[i..];
    assert rest[..n - 1] == text[i..i + n - 1] && rest[n..] == text[i + n..];
    assert WordsOf(rest) == [rest[..n - 1]] + WordsOf(rest[n..]);
  }

  method ReadWords(text: string) returns (words: seq<string>)
    ensures words == WordsOf(text)
  {
    hide WordsOf, Taken;
    words := [];
    var i := 0;
    assert text[0..] == text;
    while i < |text|
      invariant 0 <= i <= |text| && words + WordsOf(text[i..]) == WordsOf(text)
    {
      var buffer := Fgets(text, i);
      OneMoreWord(text, i, |buffer|, words);
      assert buffer[..|buffer| - 1] == text[i..i + |buffer| - 1];
      words := words + [buffer[..|buffer| - 1]];
      i := i + |buffer|;
    }
    NoWords(text[i..]);
  }

  lemma NoWords(text: string)
    ensures text == "" ==> WordsOf(text) == []
  {
  }

  method Fgets(text: string, i: nat) returns (buffer: string)
    requires i < |text|
    ensures |buffer| == Taken(text[i..], 0) && buffer == text[i..i + |buffer|]
  {
    ghost var rest := text[i..];
    var k := 0;
    while i + k < |text| && k < BUFFER - 1 && (k == 0 || text[i + k - 1] != '\n')
      invariant 0 <= k <= |rest| && k <= BUFFER - 1
      invariant k == 0 || (k < |rest| && k < BUFFER - 1 && rest[k - 1] != '\n' && Taken(rest, k) == Taken(rest, 0))
        || k == Taken(rest, 0)
    {
      assert text[i + k] == rest[k] && (k > 0 ==> text[i + k - 1] == rest[k - 1]);
      assert Taken(rest, k) == Taken(rest, 0);
      k := k + 1;
    }
    buffer := text[i..i + k];
  }

  // ----- What the words have to do with the text -----

  function Joined(pieces: seq<string>): string {
    if pieces == [] then "" else pieces[0] + Joined(pieces[1..])
  }

  /** A piece ends with its first line break, or has 63 characters, or ends the text. */
  ghost predicate IsPiece(pieces: seq<string>, i: nat)
    requires i < |pieces|
  {
    var p := pieces[i];
    && 0 < |p| <= 63 && '\n' !in p[..|p| - 1]
    && (p[|p| - 1] == '\n' || |p| == 63 || i == |pieces| - 1)
  }

  /** A text is cut into such pieces, and the words are the pieces without their last characters. */
  lemma {:induction false} WordsAreCutPieces(text: string) returns (pieces: seq<string>)
    ensures Joined(pieces) == text && |pieces| == |WordsOf(text)|
    ensures forall i :: 0 <= i < |pieces| ==>
      IsPiece(pieces, i) && WordsOf(text)[i] == pieces[i][..|pieces[i]| - 1]
    decreases |text|
  {
    hide Taken;
    pieces := [];
    if text != "" {
      var n := Taken(text, 0);
      var rest := WordsAreCutPieces(text[n..]);
      pieces := [text[..n]] + rest;
      assert pieces[1..] == rest && text[..n][..n - 1] == text[..n - 1] && text == text[..n] + text[n..];
      assert '\n' !in text[..n - 1];
      forall i | 0 <= i < |pieces|
        ensures IsPiece(pieces, i) && WordsOf(text)[i] == pieces[i][..|pieces[i]| - 1]
      {
        assert i > 0 ==> IsPiece(rest, i - 1) && pieces[i] == rest[i - 1];
        assert i == 0 && n == |text| ==> rest == [];
      }
    }
  }

  /** A text of whole lines. */
  function Lines(lines: seq<string>): string {
    if lines == [] then "" else lines[0] + "\n" + Lines(lines[1..])
  }

  lemma {:induction false} LineIsTaken(line: string, rest: string, k: nat)
    requires '\n' !in line && k <= |line| && k < BUFFER - 1
    ensures Taken(line + "\n" + rest, k) == if |line| < BUFFER - 1 then |line| + 1 else BUFFER - 1
    decreases |line| - k
  {
    var text := line + "\n" + rest;
    if k < |line| {
      assert text[k] == line[k] && line[k] in line;
      if k + 1 < BUFFER - 1 {
        LineIsTaken(line, rest, k + 1);
      }
    }
  }

  /** A line that fits is read as it is, and one that does not is not. */
  lemma FirstLine(line: string, rest: string)
    requires '\n' !in line
    ensures var words := WordsOf(line + "\n" + rest);
      if |line| <= BUFFER - 2 then words == [line] + WordsOf(rest) else words != [] && words[0] != line
  {
    hide Taken;
    var text := line + "\n" + rest;
    LineIsTaken(line, rest, 0);
    if |line| <= BUFFER - 2 {
      assert text[..|line|] == line && text[|line| + 1..] == rest;
    } else {
      assert |WordsOf(text)[0]| == BUFFER - 2;
    }
  }

  /** The lines of a text are read as its words exactly if none is longer than 62 characters. */
  lemma {:induction false} LinesAreReadIffShort(lines: seq<string>)
    requires forall l :: l in lines ==> '\n' !in l
    ensures WordsOf(Lines(lines)) == lines <==> forall l :: l in lines ==> |l| <= 62
    decreases |lines|
  {
    hide WordsOf;
    if lines == [] {
      NoWords("");
    } else {
      var line, rest := lines[0], Lines(lines[1..]);
      FirstLine(line, rest);
      LinesAreReadIffShort(lines[1..]);
      assert lines == [line] + lines[1..];
      SameTail(line, lines[1..], WordsOf(rest));
    }
  }

  lemma SameTail(word: string, s: seq<string>, t: seq<string>)
    ensures [word] + s == [word] + t <==> s == t
  {
    assert ([word] + s)[1..] == s && ([word] + t)[1..] == t;
  }

  lemma {:induction false} LastIsTaken(last: string, k: nat)
    requires '\n' !in last && k < |last| && k < BUFFER - 1
    ensures Taken(last, k) == if |last| <= BUFFER - 1 then |last| else BUFFER - 1
    decreases |last| - k
  {
    assert last[k] in last;
    if k + 1 < |last| && k + 1 < BUFFER - 1 {
      LastIsTaken(last, k + 1);
    }
  }

  lemma LastWord(last: string)
    requires '\n' !in last && last != ""
    ensures WordsOf(last) == [last[..|last| - 1]] <==> |last| <= BUFFER - 1
  {
    hide Taken;
    LastIsTaken(last, 0);
    if |last| <= BUFFER - 1 {
      NoWords(last[|last|..]);
    } else {
      assert |WordsOf(last)[0]| == BUFFER - 2;
    }
  }

  /** If the last line has no line break, it loses its last letter: that, with the other lines, is what
      is read exactly if none of those is longer than 62 characters, and the last no longer than 63. */
  lemma {:induction false} LastLineIsCut(lines: seq<string>, last: string)
    requires (forall l :: l in lines ==> '\n' !in l) && '\n' !in last && last != ""
    ensures WordsOf(Lines(lines) + last) == lines + [last[..|last| - 1]]
      <==> (forall l :: l in lines ==> |l| <= 62) && |last| <= 63
    decreases |lines|
  {
    hide WordsOf;
    var cut := [last[..|last| - 1]];
    if lines == [] {
      assert Lines(lines) + last == last && lines + cut == cut;
      LastWord(last);
    } else {
      var line, rest := lines[0], Lines(lines[1..]) + last;
      assert Lines(lines) + last == line + "\n" + rest && lines == [line] + lines[1..];
      assert lines + cut == [line] + (lines[1..] + cut);
      FirstLine(line, rest);
      LastLineIsCut(lines[1..], last);
      SameTail(line, lines[1..] + cut, WordsOf(rest));
    }
  }

  function TotalLength(words: seq<string>): nat {
    if words == [] then 0 else |words[0]| + TotalLength(words[1..])
  }

  /** However a text is cut into pieces, each word is one character short. */
  lemma {:induction false} OneCharacterEach(text: string)
    ensures TotalLength(WordsOf(text)) + |WordsOf(text)| == |text|
    decreases |text|
  {
    hide Taken;
    if text != "" {
      OneCharacterEach(text[Taken(text, 0)..]);
    }
  }

  lemma {:induction false} LengthOfLines(lines: seq<string>, last: string)
    ensures |Lines(lines)| == TotalLength(lines) + |lines|
    ensures TotalLength(lines + [last]) == TotalLength(lines) + |last|
    decreases |lines|
  {
    if lines == [] {
      assert lines + [last] == [last] && [last][1..] == [];
    } else {
      LengthOfLines(lines[1..], last);
      assert (lines + [last])[1..] == lines[1..] + [last];
    }
  }

  /** So such a text is never read as it is written, however short its lines are. */
  lemma LastLineIsNeverRead(lines: seq<string>, last: string)
    requires last != ""
    ensures WordsOf(Lines(lines) + last) != lines + [last]
  {
    OneCharacterEach(Lines(lines) + last);
    LengthOfLines(lines, last);
  }
}

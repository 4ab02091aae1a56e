/** The book text assembled in `Book.__init__` (audioBookify.py:30, 50-51): the disclaimer
    followed by the file's lines, joined with single spaces. */
module TextJoin {

  /** `Book.disclaimer`: one sentence, its full stop, a space and a newline. The sentence is
      spelled in four literal pieces so that facts about its characters can be shown piece by
      piece; it is the same string. */
  const DisclaimerSentence: string :=
    "Note: This audio " + "recording was generated " + "using an AI voice " + "provided by OpenAI"
  const Disclaimer: string := DisclaimerSentence + ". \n"

  /** Python's `sep.join(pieces)`. */
  function Join(sep: string, pieces: seq<string>): (s: string)
    ensures |pieces| == 0 ==> s == ""
    ensures |pieces| >= 1 ==> pieces[0] <= s
    ensures |pieces| >= 1 ==> var last := pieces[|pieces| - 1];
              |last| <= |s| && s[|s| - |last|..] == last
  {
    if |pieces| == 0 then ""
    else if |pieces| == 1 then pieces[0]
    else
      var rest := Join(sep, pieces[1..]);
      var s := pieces[0] + sep + rest;
      assert s[|s| - |rest|..] == rest;
      s
  }

  /** Total length of the pieces. */
  function SumLen(pieces: seq<string>): nat
  {
    if pieces == [] then 0 else |pieces[0]| + SumLen(pieces[1..])
  }

  /** `' '.join([disclaimer] + lines)`; the lines are those `readlines` returned. */
  function BookText(lines: seq<string>): (text: string)
    ensures Disclaimer <= text
    ensures |lines| > 0 ==> var last := lines[|lines| - 1];
              |last| <= |text| && text[|text| - |last|..] == last
  {
    Join(" ", [Disclaimer] + lines)
  }

  /** A join puts exactly one separator between consecutive pieces and nothing else. */
  lemma {:induction false} JoinLength(sep: string, pieces: seq<string>)
    requires |pieces| >= 1
    ensures |Join(sep, pieces)| == SumLen(pieces) + |sep| * (|pieces| - 1)
    decreases |pieces|
  {
    if |pieces| > 1 {
      JoinLength(sep, pieces[1..]);
      assert |sep| * (|pieces| - 1) == |sep| * (|pieces| - 2) + |sep|;
    }
  }

  /** Appending a piece appends one separator and the piece: the pieces appear in order, one
      separator between neighbours. */
  lemma {:induction false} JoinAppend(sep: string, pieces: seq<string>, p: string)
    requires |pieces| >= 1
    ensures Join(sep, pieces + [p]) == Join(sep, pieces) + sep + p
    decreases |pieces|
  {
    assert (pieces + [p])[1..] == pieces[1..] + [p];
    if |pieces| > 1 {
      JoinAppend(sep, pieces[1..], p);
    }
  }

  /** The book text begins with the disclaimer, and its length is the disclaimer's, plus each
      line's, plus one space per line. */
  lemma BookTextShape(lines: seq<string>)
    ensures Disclaimer <= BookText(lines)
    ensures |BookText(lines)| == |Disclaimer| + SumLen(lines) + |lines|
  {
    var pieces := [Disclaimer] + lines;
    JoinLength(" ", pieces);
    assert pieces[1..] == lines;
  }

  predicate NoTerminatorIn(s: string)
  {
    forall k :: 0 <= k < |s| ==> s[k] != '.' && s[k] != '?' && s[k] != '!'
  }

  lemma NoTerminatorInConcat(a: string, b: string)
    requires NoTerminatorIn(a) && NoTerminatorIn(b)
    ensures NoTerminatorIn(a + b)
  {
  }

  /** The first sentence terminator of the disclaimer is the full stop at index 77. */
  lemma DisclaimerTerminator()
    ensures |Disclaimer| == 80
    ensures Disclaimer[77] == '.'
    ensures NoTerminatorIn(Disclaimer[..77])
  {
    var a, b, c, d := "Note: This audio ", "recording was generated ", "using an AI voice ", "provided by OpenAI";
    assert NoTerminatorIn(a) && NoTerminatorIn(b) && NoTerminatorIn(c) && NoTerminatorIn(d);
    NoTerminatorInConcat(a, b);
    NoTerminatorInConcat(a + b, c);
    NoTerminatorInConcat(a + b + c, d);
    assert Disclaimer[..77] == DisclaimerSentence;
  }
}

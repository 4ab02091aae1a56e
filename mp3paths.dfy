/** `TTS_API_Wrapper.create_paths_to_mp3s` (audioBookify.py:145-170). A path is its text with
    `/` between components, which is what `out_path / "mp3s" / name` renders as. */
module Mp3Paths {
  import opened Wrappers

  /** The decimal digit character for `d`. */
  function DigitChar(d: nat): (c: char)
    requires d < 10
    ensures '0' <= c <= '9'
    ensures c as int - '0' as int == d
  {
    ('0' as int + d) as char
  }

  predicate IsDigit(c: char)
  {
    '0' <= c <= '9'
  }

  predicate AllDigits(s: string)
  {
    forall k :: 0 <= k < |s| ==> IsDigit(s[k])
  }

  /** Python's `f"{n}"` for a natural number: its decimal digits, most significant first. */
  function NatToString(n: nat): (s: string)
    ensures |s| > 0 && AllDigits(s)
    decreases n
  {
    if n < 10 then [DigitChar(n)] else NatToString(n / 10) + [DigitChar(n % 10)]
  }

  /** Reads a string of decimal digits back as a number. */
  function ParseNat(s: string): nat
    requires AllDigits(s)
    decreases |s|
  {
    if s == [] then 0
    else ParseNat(s[..|s| - 1]) * 10 + (s[|s| - 1] as int - '0' as int)
  }

  /** Reading the rendered digits gives the number back. */
  lemma {:induction false} ParseNatToString(n: nat)
    ensures ParseNat(NatToString(n)) == n
    decreases n
  {
    var s := NatToString(n);
    if n < 10 {
      assert s[..|s| - 1] == [];
    } else {
      assert s[..|s| - 1] == NatToString(n / 10);
      ParseNatToString(n / 10);
    }
  }

  /** Different numbers render differently. */
  lemma NatToStringInjective(a: nat, b: nat)
    requires NatToString(a) == NatToString(b)
    ensures a == b
  {
    ParseNatToString(a);
    ParseNatToString(b);
  }

  /** The directory every mp3 goes to: `out_path / "mp3s"`. */
  function Mp3Dir(outPath: string): string
  {
    outPath + "/mp3s/"
  }

  /** The part of every name before the index: `{book}_{voice}_{model}_`. */
  function NameStem(bookName: string, voice: string, model: string): string
  {
    bookName + "_" + voice + "_" + model + "_"
  }

  /** `{book}_{voice}_{model}_{idx}_of_{n}_{tag}.mp3`. */
  function IndexedName(bookName: string, voice: string, model: string, idx: nat, n: nat, tag: string): string
  {
    NameStem(bookName, voice, model) + NatToString(idx) + "_of_" + NatToString(n) + "_" + tag + ".mp3"
  }

  /** `{book}_{voice}_{model}_{tag}.mp3`. */
  function SingleName(bookName: string, voice: string, model: string, tag: string): string
  {
    NameStem(bookName, voice, model) + tag + ".mp3"
  }

  /** `create_paths_to_mp3s(n, tag)`. For several chunks the names are numbered
      `0` to `n - 1` in order; for one chunk there is no number; for `n <= 0` neither branch
      assigns `paths` and the `return` raises, which is `None` here. */
  function CreatePathsToMp3s(outPath: string, bookName: string, voice: string, model: string,
                             n: int, tag: string): (paths: Option<seq<string>>)
    ensures paths.Some? <==> n >= 1
    ensures paths.Some? ==> |paths.value| == n
  {
    if n > 1 then
      Some(seq(n, i requires 0 <= i < n => Mp3Dir(outPath) + IndexedName(bookName, voice, model, i, n, tag)))
    else if n == 1 then
      Some([Mp3Dir(outPath) + SingleName(bookName, voice, model, tag)])
    else
      None
  }

  /** A run of digits followed by a non-digit can be split off in only one way. */
  lemma DigitsThenOtherCancel(a: string, x: string, b: string, y: string)
    requires AllDigits(a) && AllDigits(b)
    requires |x| > 0 && !IsDigit(x[0]) && |y| > 0 && !IsDigit(y[0])
    requires a + x == b + y
    ensures a == b && x == y
  {
    var s := a + x;
    assert forall k :: 0 <= k < |a| ==> IsDigit(s[k]);
    assert !IsDigit(s[|a|]);
    assert forall k :: 0 <= k < |b| ==> IsDigit(s[k]);
    assert !IsDigit(s[|b|]);
    assert a == (a + x)[..|a|] && b == (b + y)[..|b|];
    assert x == (a + x)[|a|..] && y == (b + y)[|b|..];
  }

  /** With several chunks, path `i` carries the index `i` and the count `n`: reading the
      digits after the common prefix gives `i` back, so no two chunks share a file. */
  lemma IndexedPathsDistinct(outPath: string, bookName: string, voice: string, model: string,
                             n: int, tag: string, i: nat, j: nat)
    requires n > 1 && i < n && j < n
    requires CreatePathsToMp3s(outPath, bookName, voice, model, n, tag).value[i]
          == CreatePathsToMp3s(outPath, bookName, voice, model, n, tag).value[j]
    ensures i == j
  {
    var paths := CreatePathsToMp3s(outPath, bookName, voice, model, n, tag).value;
    var pre := Mp3Dir(outPath) + NameStem(bookName, voice, model);
    var rest := "_of_" + NatToString(n) + "_" + tag + ".mp3";
    assert paths[i] == pre + (NatToString(i) + rest);
    assert paths[j] == pre + (NatToString(j) + rest);
    assert NatToString(i) + rest == paths[i][|pre|..];
    assert NatToString(j) + rest == paths[j][|pre|..];
    DigitsThenOtherCancel(NatToString(i), rest, NatToString(j), rest);
    NatToStringInjective(i, j);
  }

  /** Every path lies in `out_path/mp3s`, starts its name with the book, voice and model,
      and ends with the tag and `.mp3`. */
  lemma PathsShape(outPath: string, bookName: string, voice: string, model: string, n: int, tag: string)
    requires n >= 1
    ensures var paths := CreatePathsToMp3s(outPath, bookName, voice, model, n, tag).value;
      forall i :: 0 <= i < |paths| ==>
        && Mp3Dir(outPath) + NameStem(bookName, voice, model) <= paths[i]
        && |paths[i]| >= 4 && paths[i][|paths[i]| - 4..] == ".mp3"
        && tag + ".mp3" <= paths[i][|paths[i]| - |tag| - 4..]
  {
    var paths := CreatePathsToMp3s(outPath, bookName, voice, model, n, tag).value;
    forall i | 0 <= i < |paths|
      ensures Mp3Dir(outPath) + NameStem(bookName, voice, model) <= paths[i]
      ensures |paths[i]| >= 4 && paths[i][|paths[i]| - 4..] == ".mp3"
      ensures tag + ".mp3" <= paths[i][|paths[i]| - |tag| - 4..]
    {
      var pre := Mp3Dir(outPath) + NameStem(bookName, voice, model);
      var mid := if n > 1 then NatToString(i) + "_of_" + NatToString(n) + "_" else "";
      assert paths[i] == pre + mid + (tag + ".mp3");
    }
  }

  /** With several chunks the paths come in index order: path `i` carries `_{i}_of_{n}_`. */
  lemma PathsNumbered(outPath: string, bookName: string, voice: string, model: string,
                      n: int, tag: string, i: nat)
    requires n > 1 && i < n
    ensures Mp3Dir(outPath) + NameStem(bookName, voice, model) + NatToString(i) + "_of_" + NatToString(n) + "_"
            <= CreatePathsToMp3s(outPath, bookName, voice, model, n, tag).value[i]
  {
    var pre := Mp3Dir(outPath) + NameStem(bookName, voice, model) + NatToString(i) + "_of_" + NatToString(n) + "_";
    assert CreatePathsToMp3s(outPath, bookName, voice, model, n, tag).value[i] == pre + tag + ".mp3";
  }

  /** A single chunk gets the unnumbered name. */
  lemma SinglePathUnnumbered(outPath: string, bookName: string, voice: string, model: string, tag: string)
    ensures CreatePathsToMp3s(outPath, bookName, voice, model, 1, tag)
         == Some([Mp3Dir(outPath) + NameStem(bookName, voice, model) + tag + ".mp3"])
  {
    var pre := Mp3Dir(outPath) + NameStem(bookName, voice, model);
    assert Mp3Dir(outPath) + SingleName(bookName, voice, model, tag) == pre + tag + ".mp3";
  }
}

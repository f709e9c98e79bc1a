/**
 * h04 BandieraList and BandieraVector: words printed flush right, padded on
 * the left with '#' up to the length of the longest word. Both classes run
 * the same code, one over a List<String> and one over a raw Vector; both are
 * modelled by this module over a sequence of strings.
 */
module Bandiera {
  import opened JavaString

  /** maxLength: the running maximum of the word lengths (String.length()), from 0. */
  method MaxLength(words: seq<string>) returns (maxLength: int)
    ensures maxLength >= 0
    ensures forall i :: 0 <= i < |words| ==> JavaLength(words[i]) <= maxLength
    ensures words == [] ==> maxLength == 0
    ensures words != [] ==> exists i :: 0 <= i < |words| && JavaLength(words[i]) == maxLength
  {
    maxLength := 0;
    for i := 0 to |words|
      invariant maxLength >= 0
      invariant forall k :: 0 <= k < i ==> JavaLength(words[k]) <= maxLength
      invariant i > 0 ==> exists k :: 0 <= k < i && JavaLength(words[k]) == maxLength
      invariant i == 0 ==> maxLength == 0
    {
      var length := JavaLength(words[i]);
      if length > maxLength {
        maxLength := length;
      } else if i == 0 {
        assert JavaLength(words[0]) == 0;
      }
    }
  }

  /**
   * String.format("%ns", word): the word right-aligned in a field of n,
   * padded with spaces; the field is measured in UTF-16 units.
   */
  function Format(word: string, width: int): string {
    if JavaLength(word) >= width then word else Repeat(' ', width - JavaLength(word)) + word
  }

  /** String.replace(' ', '#'): every space replaced. */
  function ReplaceSpaces(s: string): (r: string)
    ensures |r| == |s|
    ensures forall i :: 0 <= i < |s| ==> r[i] == if s[i] == ' ' then '#' else s[i]
  {
    if s == [] then [] else [if s[0] == ' ' then '#' else s[0]] + ReplaceSpaces(s[1..])
  }

  /** One printed line: the formatted word with its spaces turned into '#'. */
  function FlagLine(word: string, width: int): string {
    ReplaceSpaces(Format(word, width))
  }

  /** Replacing the spaces of a padded word without spaces turns only the padding into '#'. */
  lemma {:induction false} PaddingReplaced(word: string, pad: nat)
    requires ' ' !in word
    ensures ReplaceSpaces(Repeat(' ', pad) + word) == Repeat('#', pad) + word
  {
    var formatted := Repeat(' ', pad) + word;
    var line := ReplaceSpaces(formatted);
    var expected := Repeat('#', pad) + word;
    forall i | 0 <= i < |formatted| ensures line[i] == expected[i] {
      assert line[i] == if formatted[i] == ' ' then '#' else formatted[i];
      if i < pad {
        assert formatted[i] == ' ' && expected[i] == '#';
      } else {
        assert formatted[i] == word[i - pad] == expected[i];
      }
    }
    assert |line| == |expected|;
  }

  /**
   * For a word without spaces (as Scanner.next reads them) no longer than
   * the width, the line is width - length '#' followed by the word, and its
   * length is exactly `width`.
   */
  lemma FlagLineShape(word: string, width: int)
    requires ' ' !in word && JavaLength(word) <= width
    ensures FlagLine(word, width) == Repeat('#', width - JavaLength(word)) + word
    ensures JavaLength(FlagLine(word, width)) == width
  {
    var pad := width - JavaLength(word);
    assert Format(word, width) == Repeat(' ', pad) + word by {
      if JavaLength(word) >= width {
        assert pad == 0 && Repeat(' ', pad) == [];
      }
    }
    PaddingReplaced(word, pad);
    BmpLength(Repeat('#', pad));
    JavaLengthAppend(Repeat('#', pad), word);
  }
}

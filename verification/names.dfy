/** Player-name canonicalisation (lib/utils.ts): the four punctuation
    characters apostrophe, hyphen, period and backtick are shown in the grid
    but are not guessed. */
module Names {
  import opened Text

  /** The character class `['\-\.`]` of the replacement in `normalizePlayerName`. */
  const Stripped: seq<char> := ['\'', '-', '.', '`']

  /** The test `getDisplayBoxes` applies to each character. */
  predicate IsSpecial(c: char)
  {
    c == '-' || c == '\'' || c == '.' || c == '`'
  }

  /** `normalizePlayerName`: drops every character of the class `Stripped`
      and keeps all others, spaces and letter case included, in order. */
  function Normalize(name: string): (r: string)
    ensures |r| <= |name|
    ensures forall i :: 0 <= i < |r| ==> r[i] !in Stripped
  {
    if |name| == 0 then []
    else (if name[0] in Stripped then [] else [name[0]]) + Normalize(name[1..])
  }

  /** A display box: the raw character and whether it is punctuation. */
  datatype Box = Box(ch: char, isSpecial: bool)

  /** `getDisplayBoxes`: one box per character of the raw name. */
  function DisplayBoxes(name: string): (boxes: seq<Box>)
    ensures |boxes| == |name|
    ensures forall i :: 0 <= i < |name| ==> boxes[i].ch == name[i]
    ensures forall i :: 0 <= i < |name| ==> (boxes[i].isSpecial <==> name[i] in Stripped)
  {
    seq(|name|, i requires 0 <= i < |name| => Box(name[i], IsSpecial(name[i])))
  }

  /** The characters of the non-special boxes, in order. */
  function GuessedChars(boxes: seq<Box>): string
  {
    if |boxes| == 0 then []
    else (if boxes[0].isSpecial then [] else [boxes[0].ch]) + GuessedChars(boxes[1..])
  }

  /** Number of punctuation characters of `name`. */
  function SpecialCount(name: string): nat
  {
    if |name| == 0 then 0 else (if IsSpecial(name[0]) then 1 else 0) + SpecialCount(name[1..])
  }

  // ---------------------------------------------------------------------

  /** The regular-expression class and the display test agree: a box is
      special exactly when `normalizePlayerName` strips its character. */
  lemma SpecialIsStripped(c: char)
    ensures IsSpecial(c) <==> c in Stripped
  {
  }

  /** The normalised name contains no punctuation. */
  lemma NormalizeHasNoSpecial(name: string)
    ensures forall i :: 0 <= i < |Normalize(name)| ==> !IsSpecial(Normalize(name)[i])
  {
  }

  /** Normalisation commutes with concatenation, so it is a filter: it acts
      on each character independently and keeps the survivors in order. */
  lemma {:induction false} NormalizeAppend(a: string, b: string)
    ensures Normalize(a + b) == Normalize(a) + Normalize(b)
    decreases |a|
  {
    if |a| == 0 {
      assert a + b == b;
    } else {
      assert (a + b)[1..] == a[1..] + b;
      NormalizeAppend(a[1..], b);
    }
  }

  /** A name without punctuation is its own canonical form. */
  lemma {:induction false} NormalizeKeepsPlain(name: string)
    requires forall i :: 0 <= i < |name| ==> !IsSpecial(name[i])
    ensures Normalize(name) == name
  {
    if |name| > 0 {
      NormalizeKeepsPlain(name[1..]);
    }
  }

  /** Normalising twice is the same as normalising once. */
  lemma NormalizeIdempotent(name: string)
    ensures Normalize(Normalize(name)) == Normalize(name)
  {
    NormalizeHasNoSpecial(name);
    NormalizeKeepsPlain(Normalize(name));
  }

  /** The normalised length is the raw length minus the punctuation count. */
  lemma {:induction false} NormalizeLength(name: string)
    ensures |Normalize(name)| == |name| - SpecialCount(name)
  {
    if |name| > 0 {
      NormalizeLength(name[1..]);
    }
  }

  /** Every character other than the four punctuation marks keeps its
      number of occurrences: nothing else is dropped. */
  lemma {:induction false} NormalizeKeepsCount(name: string, c: char)
    requires !IsSpecial(c)
    ensures Count(Normalize(name), c) == Count(name, c)
  {
    if |name| > 0 {
      NormalizeKeepsCount(name[1..], c);
      var head := if name[0] in Stripped then [] else [name[0]];
      CountAppend(head, Normalize(name[1..]), c);
      CountCons(name[0], name[1..], c);
      assert name == [name[0]] + name[1..];
      if head == [] {
        assert Count(head, c) == 0;
      } else {
        assert Count(head, c) == Count([] + [name[0]], c);
      }
    }
  }

  /** The guessed characters of the display boxes, in order, are exactly
      the normalised name. */
  lemma {:induction false} BoxesSpellNormalized(name: string)
    ensures GuessedChars(DisplayBoxes(name)) == Normalize(name)
  {
    if |name| > 0 {
      BoxesSpellNormalized(name[1..]);
      assert DisplayBoxes(name)[1..] == DisplayBoxes(name[1..]);
    }
  }
}

/** The two Python string operations the compliance code relies on. */
module Text {

  /** Python's `sep.join(parts)`: the parts in order, with `sep` between neighbours. */
  function Join(parts: seq<string>, sep: string): string
    decreases |parts|
  {
    if |parts| == 0 then ""
    else if |parts| == 1 then parts[0]
    else parts[0] + sep + Join(parts[1..], sep)
  }

  /** `phrase` occurs in `text` starting at offset `i`. */
  predicate OccursAt(text: string, phrase: string, i: int)
  {
    0 <= i && i + |phrase| <= |text| && text[i..i + |phrase|] == phrase
  }

  /** Joining two parts puts the separator between them once. */
  lemma JoinPair(a: string, b: string, sep: string)
    ensures Join([a, b], sep) == a + sep + b
  {
  }

  /** Python's `phrase in text` on strings: some contiguous slice of `text` is `phrase`. */
  predicate Contains(text: string, phrase: string)
  {
    exists i | 0 <= i <= |text| - |phrase| :: OccursAt(text, phrase, i)
  }

  /** A character that occurs neither in the separator nor in any part does not occur in the join. */
  lemma {:induction false} JoinAvoids(parts: seq<string>, sep: string, c: char)
    requires c !in sep
    requires forall k :: 0 <= k < |parts| ==> c !in parts[k]
    ensures c !in Join(parts, sep)
    decreases |parts|
  {
    if |parts| > 1 {
      assert forall k :: 0 <= k < |parts| - 1 ==> parts[1..][k] == parts[k + 1];
      JoinAvoids(parts[1..], sep, c);
      assert c !in parts[0];
    }
  }

  /** A text lacking the first character of a non-empty phrase does not contain the phrase. */
  lemma AbsentFirstChar(text: string, phrase: string)
    requires |phrase| > 0 && phrase[0] !in text
    ensures !Contains(text, phrase)
  {
  }

  /** A phrase found at a given offset is contained. */
  lemma FoundAt(text: string, phrase: string, i: nat)
    requires OccursAt(text, phrase, i)
    ensures Contains(text, phrase)
  {
  }
}

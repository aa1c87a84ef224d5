/** The word test of srtsync's search: `contains` looks for each word of a
    list in a cue's text with `strstr`, each search starting where the
    previous word was found. */
module Matching {

  datatype Option<T> = None | Some(value: T)

  /** `w` occurs in `text` starting at position `j`. An empty word occurs
      at every position, the end of the text included. */
  predicate OccursAt(text: string, w: string, j: int) {
    0 <= j && j + |w| <= |text| && text[j..j + |w|] == w
  }

  /** `strstr(text + pos, w)`: the first position at or after `pos` where
      `w` occurs, or nothing when it occurs nowhere from `pos` on. */
  function Find(text: string, w: string, pos: nat): (r: Option<nat>)
    requires pos <= |text|
    decreases |text| - pos
    ensures r.Some? ==>
      && pos <= r.value && OccursAt(text, w, r.value)
      && forall j :: pos <= j < r.value ==> !OccursAt(text, w, j)
    ensures r.None? ==> forall j :: pos <= j ==> !OccursAt(text, w, j)
  {
    if OccursAt(text, w, pos) then Some(pos)
    else if pos == |text| then None
    else Find(text, w, pos + 1)
  }

  /** The words occur in `text` in the given order from `pos` on: there are
      positions `pos <= p0 <= p1 <= ...` with word `k` at `p_k`. Consecutive
      words may overlap, since each search starts at the previous match. */
  ghost predicate InOrderFrom(text: string, words: seq<string>, pos: int)
    decreases |words|
  {
    words == [] ||
    exists j :: pos <= j && OccursAt(text, words[0], j) && InOrderFrom(text, words[1..], j)
  }

  ghost predicate InOrder(text: string, words: seq<string>) {
    InOrderFrom(text, words, 0)
  }

  /** Starting earlier never loses a match. */
  lemma InOrderFromEarlier(text: string, words: seq<string>, a: int, b: int)
    requires a <= b && InOrderFrom(text, words, b)
    ensures InOrderFrom(text, words, a)
  {
    if words != [] {
      var j :| b <= j && OccursAt(text, words[0], j) && InOrderFrom(text, words[1..], j);
      assert a <= j;
    }
  }

  /** The greedy choice is complete: the words match in order from `pos`
      exactly when the first word is found from `pos` and the rest match in
      order from where it was found. */
  lemma {:induction false} GreedyStep(text: string, words: seq<string>, pos: nat)
    requires words != [] && pos <= |text|
    ensures InOrderFrom(text, words, pos) <==>
      Find(text, words[0], pos).Some? && InOrderFrom(text, words[1..], Find(text, words[0], pos).value)
  {
    var f := Find(text, words[0], pos);
    if InOrderFrom(text, words, pos) {
      var j :| pos <= j && OccursAt(text, words[0], j) && InOrderFrom(text, words[1..], j);
      assert f.Some?;
      assert f.value <= j;
      InOrderFromEarlier(text, words[1..], f.value, j);
    }
    if f.Some? && InOrderFrom(text, words[1..], f.value) {
      assert pos <= f.value && OccursAt(text, words[0], f.value);
    }
  }

  /** `contains(line, words, nwords)`: true exactly when all the words occur
      in the text in order; with no words it is true. */
  method Contains(text: string, words: seq<string>) returns (found: bool)
    ensures found == InOrder(text, words)
    ensures words == [] ==> found
  {
    var pos := 0;
    var k := 0;
    while k < |words|
      invariant 0 <= k <= |words| && pos <= |text|
      invariant InOrderFrom(text, words[k..], pos) == InOrder(text, words)
    {
      GreedyStep(text, words[k..], pos);
      assert words[k..][1..] == words[k + 1..];
      match Find(text, words[k], pos) {
        case None =>
          return false;
        case Some(j) =>
          pos := j;
      }
      k := k + 1;
    }
    assert words[k..] == [];
    return true;
  }

  /** Because each search resumes at the start of the previous match, a
      word listed twice needs to occur only once. */
  lemma RepeatedWordOnce(text: string, w: string, j: int)
    requires OccursAt(text, w, j)
    ensures InOrder(text, [w, w])
  {
    assert InOrderFrom(text, [w][1..], j);
    assert InOrderFrom(text, [w], j);
    assert [w, w][1..] == [w];
  }
}

/** The proximity search of srtsync: `closest` bisects the on times for a
    target, `search` then tests cues outward from that index, alternating
    sides, until one matches the words. */
module Search {
  import opened Clock
  import opened Store
  import opened Matching

  /** The cues are ordered by on time (the search assumes, but does not
      need, this). */
  ghost predicate Sorted(cues: seq<Cue>) {
    forall j, k :: 0 <= j < k < |cues| ==> cues[j].on <= cues[k].on
  }

  ghost predicate Matches(c: Cue, words: seq<string>) {
    InOrder(c.text, words)
  }

  // ---------------------------------------------------------------------------
  // closest

  /** What one pass of the `do`/`while` loop of `closest` leaves: the index
      it returns, or the narrower bounds it goes round with. */
  datatype Probe = Hit(r: int) | Narrow(lo: int, hi: int)

  /** One pass with bounds `lo` and `hi`: probe the middle; an exact hit is
      returned; otherwise a bound moves past the middle, and the loop stops
      with the lower bound once the bounds no longer enclose a range. A
      narrowing moves a bound past the probed cue, which starts before the
      target (lower bound) or after it (upper bound); only on sorted cues is
      every excluded cue then on that side. */
  function Bisect(cues: seq<Cue>, ms: int, lo: int, hi: int): (p: Probe)
    requires 0 <= lo <= hi < |cues|
    ensures p.Narrow? ==> lo <= p.lo < p.hi <= hi
    ensures p.Narrow? ==> (p.lo == lo || cues[p.lo - 1].on < ms) && (p.hi == hi || cues[p.hi + 1].on > ms)
    ensures p.Hit? ==> lo <= p.r <= hi + 1 && (p.r == hi + 1 ==> lo == hi && cues[hi].on < ms)
  {
    var i := (lo + hi) / 2;
    if cues[i].on < ms then
      if i + 1 < hi then Narrow(i + 1, hi) else Hit(i + 1)
    else if cues[i].on > ms then
      if lo < i - 1 then Narrow(lo, i - 1) else Hit(lo)
    else
      Hit(i)
  }

  /** The result of the loop of `closest` entered with bounds `lo` and `hi`.
      It can be `hi + 1`, one past the last cue, and only when the bounds
      have closed on `hi` and the cue there is earlier than the target. */
  function ClosestFrom(cues: seq<Cue>, ms: int, lo: int, hi: int): (r: int)
    requires 0 <= lo <= hi < |cues|
    decreases hi - lo
    ensures lo <= r <= hi + 1
    ensures r == hi + 1 ==> lo == hi && cues[hi].on < ms
  {
    match Bisect(cues, ms, lo, hi)
    case Hit(r) => r
    case Narrow(l, h) => ClosestFrom(cues, ms, l, h)
  }

  /** What the bisection leaves around its result `r`: either the cue at `r`
      starts exactly at the target, or the cue before `r` starts earlier and
      the cue at `r` or the one after it starts later (where those cues
      exist). */
  ghost predicate Bracketed(cues: seq<Cue>, ms: int, r: int) {
    && 0 <= r <= |cues|
    && ((r < |cues| && cues[r].on == ms)
        || ((r == 0 || cues[r - 1].on < ms)
            && (r + 1 >= |cues| || cues[r + 1].on > ms || (r < |cues| && cues[r].on > ms))))
  }

  /** A pass that returns brackets the target, given bounds whose outside
      neighbours start before and after it. */
  lemma BisectHitBrackets(cues: seq<Cue>, ms: int, lo: int, hi: int)
    requires 0 <= lo <= hi < |cues| && Bisect(cues, ms, lo, hi).Hit?
    requires lo == 0 || cues[lo - 1].on < ms
    requires hi == |cues| - 1 || cues[hi + 1].on > ms
    ensures Bracketed(cues, ms, Bisect(cues, ms, lo, hi).r)
  {
    var i := (lo + hi) / 2;
    if cues[i].on < ms {
      assert Bisect(cues, ms, lo, hi).r == i + 1 && hi <= i + 1;
    } else if cues[i].on > ms {
      assert Bisect(cues, ms, lo, hi).r == lo && i <= lo + 1;
    }
  }

  /** Entered with bounds whose outside neighbours start before and after
      the target, the bisection brackets the target, whatever the order of
      the cues. */
  lemma {:induction false} ClosestFromBrackets(cues: seq<Cue>, ms: int, lo: int, hi: int, r: int)
    requires 0 <= lo <= hi < |cues| && r == ClosestFrom(cues, ms, lo, hi)
    requires lo == 0 || cues[lo - 1].on < ms
    requires hi == |cues| - 1 || cues[hi + 1].on > ms
    ensures Bracketed(cues, ms, r)
    decreases hi - lo
  {
    match Bisect(cues, ms, lo, hi)
    case Narrow(l, h) =>
      ClosestFromBrackets(cues, ms, l, h, r);
    case Hit(x) =>
      BisectHitBrackets(cues, ms, lo, hi);
  }

  /** On sorted cues a bracketing index is where the target belongs: no cue
      before it starts later than the target and none after it earlier. */
  lemma BracketedOrder(cues: seq<Cue>, ms: int, r: int)
    requires Sorted(cues) && Bracketed(cues, ms, r)
    ensures forall j :: 0 <= j < r ==> cues[j].on <= ms
    ensures forall j :: r < j < |cues| ==> cues[j].on >= ms
  {
    if r < |cues| && cues[r].on == ms {
      assert forall j :: 0 <= j < r ==> cues[j].on <= cues[r].on;
      assert forall j :: r < j < |cues| ==> cues[r].on <= cues[j].on;
    } else {
      assert forall j :: 0 <= j < r - 1 ==> cues[j].on <= cues[r - 1].on;
      if r + 1 < |cues| {
        assert forall j :: r + 1 < j < |cues| ==> cues[r + 1].on <= cues[j].on;
      }
    }
  }

  /** On sorted cues a bracketing index holds a cue starting exactly at the
      target whenever some cue does. */
  lemma BracketedFinds(cues: seq<Cue>, ms: int, r: int, k: int)
    requires Sorted(cues) && Bracketed(cues, ms, r)
    requires 0 <= k < |cues| && cues[k].on == ms
    ensures r < |cues| && cues[r].on == ms
  {
  }

  /** On unsorted cues a narrowing can drop a cue that was never compared:
      here cue 0 starts after the target, yet the first pass moves the lower
      bound past it. */
  lemma BisectSkipsUnprobed()
    ensures var cues := [Cue(9000, 9500, ""), Cue(1000, 1500, ""), Cue(6000, 6500, ""), Cue(7000, 7500, "")];
      Bisect(cues, 5000, 0, 3) == Narrow(2, 3) && cues[0].on > 5000
  {
  }

  /** With a single cue that starts before the target, `closest` returns 1,
      one past the last cue, and `search` then looks at `lines[1]`. */
  lemma ClosestOverrunsSingleCue()
    ensures ClosestFrom([Cue(1000, 2000, "a")], 2000, 0, 0) == 1
  {
  }

  /** Where the search starts: the index `closest` returns, brought back to
      the last cue when it lies one past it. */
  function StartIndex(cues: seq<Cue>, ms: int): (r: int)
    requires |cues| >= 1
    ensures 0 <= r < |cues|
  {
    var c := ClosestFrom(cues, ms, 0, |cues| - 1);
    if c < |cues| then c else |cues| - 1
  }

  /** On sorted cues the start index is where the target belongs: no cue
      before it starts later than the target, none after it earlier, and a
      cue starting exactly at the target is found. */
  lemma StartIndexSorted(cues: seq<Cue>, ms: int)
    requires |cues| >= 1 && Sorted(cues)
    ensures var r := StartIndex(cues, ms);
      && (forall j :: 0 <= j < r ==> cues[j].on <= ms)
      && (forall j :: r < j < |cues| ==> cues[j].on >= ms)
      && ((exists j :: 0 <= j < |cues| && cues[j].on == ms) ==> cues[r].on == ms)
  {
    var c := ClosestFrom(cues, ms, 0, |cues| - 1);
    ClosestFromBrackets(cues, ms, 0, |cues| - 1, c);
    BracketedOrder(cues, ms, c);
    if exists j :: 0 <= j < |cues| && cues[j].on == ms {
      var k :| 0 <= k < |cues| && cues[k].on == ms;
      BracketedFinds(cues, ms, c, k);
    }
  }

  /** `closest(subs, ms)`. */
  method Closest(subs: Subtitles, ms: u32) returns (r: int)
    requires subs.Valid() && subs.count >= 1
    ensures r == ClosestFrom(subs.Cues(), ms, 0, subs.count - 1)
    ensures subs.count >= 2 ==> 0 <= r < subs.count
    ensures subs.count == 1 ==> (r == 0 || r == 1) && (r == 1 <==> subs.lines[0].on < ms)
  {
    ghost var cues := subs.Cues();
    var imin, imax := 0, subs.count - 1;
    while true
      invariant 0 <= imin <= imax < subs.count
      invariant ClosestFrom(cues, ms, imin, imax) == ClosestFrom(cues, ms, 0, subs.count - 1)
      decreases imax - imin
    {
      ghost var pass := Bisect(cues, ms, imin, imax);
      var i := (imin + imax) / 2;
      var sms := subs.lines[i].on;
      assert sms == cues[i].on;
      if sms < ms {
        imin := i + 1;
      } else if sms > ms {
        imax := i - 1;
      } else {
        assert pass == Hit(i);
        return i;
      }
      if !(imin < imax) {
        assert pass == Hit(imin);
        return imin;
      }
      assert pass == Narrow(imin, imax);
    }
  }

  // ---------------------------------------------------------------------------
  // The order in which search visits the cues

  function Stop(i: int, n: int): (s: int)
    requires 0 <= i < n
    ensures 1 <= s && !(i - s > 0 && i + s < n)
  {
    var m := if i < n - i then i else n - i;
    if m < 1 then 1 else m
  }

  function Distance(j: int, i: int): nat {
    if j < i then i - j else j - i
  }

  /** The position at which `search`, started at index `i` of `n` cues,
      tests index `j`: first `i`, then `i-1, i+1, i-2, i+2, ...` while both
      sides still have room (the radius `Stop(i, n)`), then the rest of the
      left side downwards, then the rest of the right side upwards. */
  function Rank(i: int, n: int, j: int): (p: int)
    requires 0 <= i < n && 0 <= j < n
    ensures 0 <= p < n
  {
    var s := Stop(i, n);
    if j == i then 0
    else if i - s < j < i then 2 * (i - j) - 1
    else if i < j < i + s then 2 * (j - i)
    else if j <= i - s then 2 * s - 1 + (i - s - j)
    else 2 * s - 1 + (i - s + 1) + (j - i - s)
  }

  /** No two indices share a position: every index is tested at most once,
      and since the `n` positions are below `n`, exactly once. */
  lemma RankInjective(i: int, n: int, j: int, k: int)
    requires 0 <= i < n && 0 <= j < n && 0 <= k < n
    requires Rank(i, n, j) == Rank(i, n, k)
    ensures j == k
  {
  }

  /** Indices are tested nearest first: an index tested earlier is never
      farther from the start than one tested later. */
  lemma RankNearerFirst(i: int, n: int, j: int, k: int)
    requires 0 <= i < n && 0 <= j < n && 0 <= k < n
    requires Rank(i, n, j) <= Rank(i, n, k)
    ensures Distance(j, i) <= Distance(k, i)
  {
  }

  /** Every cue tested before position `p` failed to match. */
  ghost predicate MissedBefore(cues: seq<Cue>, words: seq<string>, i: int, p: int)
    requires 0 <= i < |cues|
  {
    forall j :: 0 <= j < |cues| && Rank(i, |cues|, j) < p ==> !Matches(cues[j], words)
  }

  lemma MissStep(cues: seq<Cue>, words: seq<string>, i: int, x: int, p: int)
    requires 0 <= i < |cues| && 0 <= x < |cues|
    requires MissedBefore(cues, words, i, p) && Rank(i, |cues|, x) == p
    requires !Matches(cues[x], words)
    ensures MissedBefore(cues, words, i, p + 1)
  {
    forall j | 0 <= j < |cues| && Rank(i, |cues|, j) < p + 1
      ensures !Matches(cues[j], words)
    {
      if Rank(i, |cues|, j) == p {
        RankInjective(i, |cues|, j, x);
      }
    }
  }

  /** What `search` promises, started at index `start`: -1 exactly when no
      cue matches; otherwise a matching cue that comes first in the search
      order among all matching cues, and so is one of the matches nearest
      to `start`. */
  ghost predicate IsSearchResult(cues: seq<Cue>, words: seq<string>, start: int, r: int)
    requires 0 <= start < |cues|
  {
    && -1 <= r < |cues|
    && (r == -1 <==> forall j :: 0 <= j < |cues| ==> !Matches(cues[j], words))
    && (r >= 0 ==>
      && Matches(cues[r], words)
      && forall j :: 0 <= j < |cues| && Matches(cues[j], words) ==>
        Rank(start, |cues|, r) <= Rank(start, |cues|, j) && Distance(r, start) <= Distance(j, start))
  }

  /** A match tested after misses at every earlier position is the result. */
  lemma HitIsFirst(cues: seq<Cue>, words: seq<string>, i: int, x: int)
    requires 0 <= i < |cues| && 0 <= x < |cues|
    requires MissedBefore(cues, words, i, Rank(i, |cues|, x)) && Matches(cues[x], words)
    ensures IsSearchResult(cues, words, i, x)
  {
    forall j | 0 <= j < |cues| && Matches(cues[j], words)
      ensures Rank(i, |cues|, x) <= Rank(i, |cues|, j) && Distance(x, i) <= Distance(j, i)
    {
      RankNearerFirst(i, |cues|, x, j);
    }
  }

  /** Misses at all `n` positions mean no cue matches. */
  lemma AllMissed(cues: seq<Cue>, words: seq<string>, i: int)
    requires 0 <= i < |cues| && MissedBefore(cues, words, i, |cues|)
    ensures IsSearchResult(cues, words, i, -1)
  {
  }

  // ---------------------------------------------------------------------------
  // search

  /** `SRT_CHECK(x)`: tests cue `x`, the one at position `pos` of the search
      order, after misses at every earlier position. */
  method Check(subs: Subtitles, ghost cues: seq<Cue>, words: seq<string>, i: int, x: int, ghost pos: int)
    returns (hit: bool)
    requires subs.Valid() && cues == subs.Cues()
    requires 0 <= i < |cues| && 0 <= x < |cues|
    requires MissedBefore(cues, words, i, pos) && Rank(i, |cues|, x) == pos
    ensures hit == Matches(cues[x], words)
    ensures hit ==> IsSearchResult(cues, words, i, x)
    ensures !hit ==> MissedBefore(cues, words, i, pos + 1)
  {
    hit := Contains(subs.lines[x].text, words);
    assert cues[x] == subs.lines[x];
    if hit {
      HitIsFirst(cues, words, i, x);
    } else {
      MissStep(cues, words, i, x, pos);
    }
  }

  /** `search(subs, ms, words, nwords)`: the index of a cue whose text holds
      the words in order, or -1 when no cue does; the cue found is the first
      match in the order `Rank` gives from the start index. On an empty
      store the result is -1. */
  method Search(subs: Subtitles, ms: u32, words: seq<string>) returns (r: int)
    requires subs.Valid()
    ensures -1 <= r < subs.count
    ensures subs.count == 0 ==> r == -1
    ensures subs.count >= 1 ==> IsSearchResult(subs.Cues(), words, StartIndex(subs.Cues(), ms), r)
  {
    var n := subs.count;
    if n == 0 {
      return -1;
    }
    ghost var cues := subs.Cues();
    var i := Closest(subs, ms);
    if i == n {
      i := n - 1;
    }
    assert i == StartIndex(cues, ms);
    r := Expand(subs, cues, words, i);
  }

  /** The body of `search` after `closest`: test the start index `i`, then
      `i-s` and `i+s` for `s = 1, 2, ...` while both lie strictly inside
      the store's ends, then sweep what is left. */
  method Expand(subs: Subtitles, ghost cues: seq<Cue>, words: seq<string>, i: int) returns (r: int)
    requires subs.Valid() && cues == subs.Cues() && 0 <= i < |cues|
    ensures IsSearchResult(cues, words, i, r)
  {
    var n := subs.count;
    ghost var pos := 0;
    var hit := Check(subs, cues, words, i, i, pos);
    if hit {
      return i;
    }
    pos := pos + 1;

    var s := 1;
    while i - s > 0 && i + s < n
      invariant 1 <= s <= Stop(i, n) && pos == 2 * s - 1
      invariant MissedBefore(cues, words, i, pos)
    {
      hit := Check(subs, cues, words, i, i - s, pos);
      if hit {
        return i - s;
      }
      pos := pos + 1;
      hit := Check(subs, cues, words, i, i + s, pos);
      if hit {
        return i + s;
      }
      pos := pos + 1;
      s := s + 1;
    }
    assert s == Stop(i, n);
    r := Sweep(subs, cues, words, i, s, pos);
  }

  /** The two `for` loops that end `search`: once one side has no room
      left at radius `s`, the rest of the left side is tested downwards from
      `i - s`, then the rest of the right side upwards from `i + s`. */
  method Sweep(subs: Subtitles, ghost cues: seq<Cue>, words: seq<string>, i: int, s: int, ghost pos: int)
    returns (r: int)
    requires subs.Valid() && cues == subs.Cues() && 0 <= i < |cues|
    requires s == Stop(i, |cues|) && pos == 2 * s - 1
    requires MissedBefore(cues, words, i, pos)
    ensures IsSearchResult(cues, words, i, r)
  {
    var n := subs.count;
    ghost var p := pos;
    var t := i - s;
    while t >= 0
      invariant -1 <= t <= i - s && p == 2 * s - 1 + (i - s - t)
      invariant MissedBefore(cues, words, i, p)
    {
      var hit := Check(subs, cues, words, i, t, p);
      if hit {
        return t;
      }
      p := p + 1;
      t := t - 1;
    }

    t := i + s;
    while t < n
      invariant i + s <= t <= n && p == 2 * s - 1 + (i - s + 1) + (t - i - s)
      invariant MissedBefore(cues, words, i, p)
    {
      var hit := Check(subs, cues, words, i, t, p);
      if hit {
        return t;
      }
      p := p + 1;
      t := t + 1;
    }
    AllMissed(cues, words, i);
    return -1;
  }

  // ---------------------------------------------------------------------------
  // A worked example

  /** Three cues starting at 1, 5 and 9 seconds. */
  function ExampleCues(): seq<Cue> {
    [Cue(1000, 2000, "foo"), Cue(5000, 6000, "bar"), Cue(9000, 10000, "foo bar")]
  }

  /** At 5.2 seconds `closest` probes the middle cue, which is earlier, and
      closes on the last one. */
  lemma ExampleStart()
    ensures StartIndex(ExampleCues(), 5200) == 2
  {
    assert Bisect(ExampleCues(), 5200, 0, 2) == Hit(2);
  }

  /** The last cue holds "bar" from its fifth character on. */
  lemma ExampleLastHoldsBar()
    ensures Matches(ExampleCues()[2], ["bar"])
  {
    var text := ExampleCues()[2].text;
    assert text[4..7] == "bar";
    assert InOrderFrom(text, ["bar"][1..], 4);
  }

  /** The search for "bar" at 5.2 seconds matches the last cue at once,
      before the middle cue, which also holds "bar", is ever tested. */
  lemma ExampleSearchBar(r: int)
    requires IsSearchResult(ExampleCues(), ["bar"], StartIndex(ExampleCues(), 5200), r)
    ensures r == 2
  {
    ExampleStart();
    ExampleLastHoldsBar();
    RankInjective(2, 3, r, 2);
  }

  /** No cue holds "baz", so the search for it fails. */
  lemma ExampleSearchBaz(r: int)
    requires IsSearchResult(ExampleCues(), ["baz"], StartIndex(ExampleCues(), 5200), r)
    ensures r == -1
  {
    var cues := ExampleCues();
    forall j | 0 <= j < 3
      ensures !Matches(cues[j], ["baz"])
    {
      var text := cues[j].text;
      forall p | 0 <= p
        ensures !OccursAt(text, "baz", p)
      {
        if p + 3 <= |text| {
          assert text[p..p + 3][2] == text[p + 2] != 'z';
        }
      }
    }
  }
}

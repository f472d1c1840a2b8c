/** Guessing the language the document is written in: the language the service detected
    for the most texts, ties going to the language detected first. The code tallies each
    distinct detected language (`Array.from(new Set(...))` with a `filter` count), sorts
    the tallies by count, highest first, with a stable sort, and takes the head; only the
    head is read, so it is modelled directly. */
module SourceLanguage {
  import opened Wrappers
  import opened KeyCatalogue
  import opened BatchChain

  /** Index of the first largest count: the head of a stable sort by count, highest first. */
  function FirstLargest(cs: seq<nat>): (i: nat)
    requires |cs| > 0
    ensures i < |cs|
    ensures forall j :: 0 <= j < |cs| ==> cs[j] <= cs[i]
    ensures forall j :: 0 <= j < i ==> cs[j] < cs[i]
    decreases |cs|
  {
    if |cs| == 1 then 0
    else
      var i := FirstLargest(cs[..|cs| - 1]);
      if cs[|cs| - 1] > cs[i] then |cs| - 1 else i
  }

  /** Position of the first occurrence of `x`. */
  function FirstIndex(s: seq<string>, x: string): (k: nat)
    requires x in s
    ensures k < |s| && s[k] == x && x !in s[..k]
  {
    if s[0] == x then 0
    else
      assert x in s[1..];
      var k := FirstIndex(s[1..], x);
      assert s[..k + 1] == [s[0]] + s[1..][..k];
      k + 1
  }

  /** The tallies in the order the set first met each language. */
  function Tallies(codes: seq<string>): (cs: seq<nat>)
    ensures |cs| == |Unique(codes)|
    ensures forall i :: 0 <= i < |cs| ==> cs[i] == Count(codes, Unique(codes)[i])
  {
    var langs := Unique(codes);
    seq(|langs|, i requires 0 <= i < |langs| => Count(codes, langs[i]))
  }

  /** The language put at the head of the sorted tallies, or none without any detection. */
  function Leading(codes: seq<string>): (r: Option<string>)
    ensures r.None? <==> codes == []
    ensures r.Some? ==> r.value in codes
  {
    if codes == [] then None
    else
      var langs := Unique(codes);
      assert codes[0] in langs;
      Some(langs[FirstLargest(Tallies(codes))])
  }

  /** `c` is detected at least as often as any other language, and every language met
      before `c`'s first detection is detected strictly less often. */
  predicate Dominant(codes: seq<string>, c: string) {
    && c in codes
    && (forall k :: 0 <= k < |codes| ==> Count(codes, codes[k]) <= Count(codes, c))
    && (forall k :: 0 <= k < FirstIndex(codes, c) ==> Count(codes, codes[k]) < Count(codes, c))
  }

  /** The head of the sorted tallies is the dominant language. */
  lemma LeadingIsDominant(codes: seq<string>)
    requires codes != []
    ensures Leading(codes).Some? && Dominant(codes, Leading(codes).value)
  {
    var langs := Unique(codes);
    var cs := Tallies(codes);
    assert codes[0] in langs;
    var idx := FirstLargest(cs);
    var c := langs[idx];
    UniqueKeepsFirstVisitOrder(codes);
    forall k | 0 <= k < |codes| ensures Count(codes, codes[k]) <= Count(codes, c) {
      assert codes[k] in langs;
      var i :| 0 <= i < |langs| && langs[i] == codes[k];
      assert cs[i] <= cs[idx];
    }
    var f := FirstIndex(codes, c);
    forall k | 0 <= k < f ensures Count(codes, codes[k]) < Count(codes, c) {
      assert codes[k] in langs;
      var i :| 0 <= i < |langs| && langs[i] == codes[k];
      assert codes[..f][k] == codes[k];
      // were c listed before codes[k], it would be met before position k, hence before
      // its own first detection
      var before := codes[..k];
      assert idx < i ==> c in before;
      assert before == codes[..f][..k];
      assert i != idx;
      assert cs[i] < cs[idx];
    }
  }

  /** At most one language is dominant. */
  lemma DominantIsUnique(codes: seq<string>, c: string, d: string)
    requires Dominant(codes, c) && Dominant(codes, d)
    ensures c == d
  {
    var fc := FirstIndex(codes, c);
    var fd := FirstIndex(codes, d);
    assert Count(codes, codes[fc]) <= Count(codes, d);
    assert Count(codes, codes[fd]) <= Count(codes, c);
    assert fc < fd ==> Count(codes, c) < Count(codes, d);
    assert fd < fc ==> Count(codes, d) < Count(codes, c);
  }

  /** The detected language of each gathered translation. */
  function DetectedCodes(results: seq<Translation>): (codes: seq<string>)
    ensures |codes| == |results|
    ensures forall i :: 0 <= i < |results| ==> codes[i] == results[i].detected
  {
    seq(|results|, i requires 0 <= i < |results| => results[i].detected)
  }

  /** The source language after the last slice: the dominant detected language when any
      translation came back, the current one otherwise. */
  function NextSource(results: seq<Translation>, source: string): (s: string)
    ensures results == [] ==> s == source
    ensures results != [] ==> Dominant(DetectedCodes(results), s)
  {
    var codes := DetectedCodes(results);
    if results == [] then source
    else
      LeadingIsDominant(codes);
      Leading(codes).value
  }

  /** A unanimous detection is taken as the source language. */
  lemma UnanimousDetectionWins(results: seq<Translation>, source: string, c: string)
    requires results != []
    requires forall i :: 0 <= i < |results| ==> results[i].detected == c
    ensures NextSource(results, source) == c
  {
    var codes := DetectedCodes(results);
    var s := NextSource(results, source);
    assert s in codes;
  }
}

/**
  The parsing of the language model's category answer in `Categorizer`:
  the text after the first "카테고리:" marker (up to the next one) is split
  on commas, each item is stripped of whitespace, only names of the fixed
  category list are kept, and an empty outcome falls back to "Components".
*/
module Categorizer {
  import opened Wrappers
  import opened Strings

  /** The ten category names a result may contain. */
  const Categories: seq<string> := [
    "Semiconductors",
    "Raw Materials",
    "Advanced Materials",
    "Components",
    "Consumer Electronics",
    "Photonics & Quantum",
    "Connectivity/6G",
    "Robotics",
    "Energy/Power",
    "Sustainable/Circular Engineering"
  ]

  /** The marker that introduces the list of categories in the answer. */
  const Marker: string := "카테고리:"

  /** The category used when nothing can be parsed. */
  const DefaultCategory: string := "Components"

  lemma DefaultIsListed()
    ensures DefaultCategory in Categories
  {
    assert Categories[3] == DefaultCategory;
  }

  /**
    The text `answer.split("카테고리:")[1]` denotes: from the end of the first
    marker up to the next marker, or to the end of the answer.
  */
  function Segment(s: string): (seg: string)
    requires Contains(s, Marker)
    ensures PieceStart(s, Marker) + |seg| <= |s|
    ensures seg == s[PieceStart(s, Marker)..PieceStart(s, Marker) + |seg|]
    ensures PieceStart(s, Marker) + |seg| == |s| || OccursAt(s, Marker, PieceStart(s, Marker) + |seg|)
    ensures forall p: nat :: PieceStart(s, Marker) <= p < PieceStart(s, Marker) + |seg| ==> !OccursAt(s, Marker, p)
    ensures !Contains(seg, Marker)
  {
    SecondPiece(s, Marker)
  }

  /** Each comma-separated item stripped of surrounding whitespace. */
  function StripAll(items: seq<string>): (r: seq<string>)
    ensures |r| == |items|
    ensures forall i :: 0 <= i < |items| ==> r[i] == Strip(items[i])
  {
    seq(|items|, i requires 0 <= i < |items| => Strip(items[i]))
  }

  /** The items that are among `names`, matched exactly, in their order, repeats included. */
  function KeepListed(items: seq<string>, names: seq<string>): (r: seq<string>)
    ensures |r| <= |items|
    ensures forall c :: c in r <==> c in items && c in names
    decreases |items|
  {
    if items == [] then []
    else
      var init := items[..|items| - 1];
      var last := items[|items| - 1];
      assert items == init + [last];
      KeepListed(init, names) + if last in names then [last] else []
  }

  /** Filtering distributes over concatenation: order and repetitions of listed names are kept. */
  lemma {:induction false} KeepListedConcat(xs: seq<string>, ys: seq<string>, names: seq<string>)
    ensures KeepListed(xs + ys, names) == KeepListed(xs, names) + KeepListed(ys, names)
    decreases |ys|
  {
    if ys == [] {
      assert xs + ys == xs;
    } else {
      var init := ys[..|ys| - 1];
      assert (xs + ys)[..|xs + ys| - 1] == xs + init;
      assert (xs + ys)[|xs + ys| - 1] == ys[|ys| - 1];
      KeepListedConcat(xs, init, names);
    }
  }

  /** When every item is a listed name, all of them are kept, in order and with repeats. */
  lemma {:induction false} KeepListedKeepsAll(items: seq<string>, names: seq<string>)
    requires forall i :: 0 <= i < |items| ==> items[i] in names
    ensures KeepListed(items, names) == items
    decreases |items|
  {
    if items != [] {
      var init := items[..|items| - 1];
      var last := items[|items| - 1];
      assert forall i :: 0 <= i < |init| ==> init[i] == items[i];
      KeepListedKeepsAll(init, names);
      assert items == init + [last];
      assert KeepListed(items, names) == KeepListed(init, names) + [last];
    }
  }

  /** The stripped comma-separated items of a segment. */
  function SegmentItems(seg: string): (r: seq<string>)
    ensures |r| >= 1
  {
    StripAll(Split(Strip(seg), ','))
  }

  /** The stripped comma-separated items of the answer's first segment. */
  function Items(response: string): (r: seq<string>)
    requires Contains(response, Marker)
    ensures |r| >= 1
    ensures |r| == |Split(Strip(Segment(response)), ',')|
    ensures forall i :: 0 <= i < |r| ==> r[i] == Strip(Split(Strip(Segment(response)), ',')[i])
  {
    SegmentItems(Segment(response))
  }

  /**
    Parses a stripped model answer into category names. The result is never
    empty and holds only listed names; without the marker it is the default.
  */
  function ParseCategories(response: string): (r: seq<string>)
    ensures r != []
    ensures forall c :: c in r ==> c in Categories
    ensures !Contains(response, Marker) ==> r == [DefaultCategory]
    ensures Contains(response, Marker) && KeepListed(Items(response), Categories) != [] ==>
      r == KeepListed(Items(response), Categories)
    ensures Contains(response, Marker) && KeepListed(Items(response), Categories) == [] ==>
      r == [DefaultCategory]
  {
    DefaultIsListed();
    var found := if Contains(response, Marker) then KeepListed(Items(response), Categories) else [];
    if found == [] then [DefaultCategory] else found
  }

  /**
    An answer whose items are all category names yields exactly those items,
    in the answer's order and with its repetitions.
  */
  lemma ParseKeepsListedItems(response: string)
    requires Contains(response, Marker)
    requires forall i :: 0 <= i < |Items(response)| ==> Items(response)[i] in Categories
    ensures ParseCategories(response) == Items(response)
  {
    KeepListedKeepsAll(Items(response), Categories);
  }

  /** The sample answer of the prompt parses to the two categories it names. */
  lemma SampleAnswer(response: string)
    requires response == "카테고리: Semiconductors, Energy/Power"
    ensures Contains(response, Marker)
    ensures Items(response) == ["Semiconductors", "Energy/Power"]
    ensures ParseCategories(response) == ["Semiconductors", "Energy/Power"]
  {
    SampleItems(response, "Semiconductors", "Energy/Power");
    var items := Items(response);
    assert Categories[0] == items[0] && Categories[8] == items[1];
    KeepListedKeepsAll(items, Categories);
  }

  lemma SampleItems(response: string, first: string, second: string)
    requires response == "카테고리: Semiconductors, Energy/Power"
    requires first == "Semiconductors" && second == "Energy/Power"
    ensures Contains(response, Marker) && Items(response) == [first, second]
  {
    SampleSegment(response, [' '] + first + [','] + [' '] + second);
    assert ',' !in first && ',' !in second;
    assert !IsSpace(first[0]) && !IsSpace(first[|first| - 1]);
    assert !IsSpace(second[0]) && !IsSpace(second[|second| - 1]);
    TwoItems(first, second);
  }

  /** A segment " a, b" of two plain names gives the items a and b. */
  lemma TwoItems(first: string, second: string)
    requires first != [] && ',' !in first && !IsSpace(first[0]) && !IsSpace(first[|first| - 1])
    requires second != [] && ',' !in second && !IsSpace(second[0]) && !IsSpace(second[|second| - 1])
    ensures SegmentItems([' '] + first + [','] + [' '] + second) == [first, second]
  {
    var spaced := [' '] + second;
    SpaceThenNoComma(second);
    TwoPieces(first, second);
    StripLeadingSpace(first);
    StripLeadingSpace(spaced);
    assert spaced[1..] == second;
    StripAllTwo(first, spaced);
    var pieces := Split(Strip([' '] + first + [','] + [' '] + second), ',');
    assert pieces == [first, spaced];
    assert StripAll(pieces) == [first, second];
  }

  lemma StripAllTwo(a: string, b: string)
    ensures StripAll([a, b]) == [Strip(a), Strip(b)]
  {
    var items := [a, b];
    var r := StripAll(items);
    assert r[0] == Strip(items[0]) && r[1] == Strip(items[1]);
    assert |r| == 2;
  }

  lemma SpaceThenNoComma(second: string)
    requires ',' !in second
    ensures ',' !in [' '] + second
  {
    forall c | c in [' '] + second ensures c != ',' {
      if c != ' ' { assert c in second; }
    }
  }

  /** Stripping " a, b" and splitting it on commas gives "a" and " b". */
  lemma TwoPieces(first: string, second: string)
    requires first != [] && ',' !in first && !IsSpace(first[0])
    requires second != [] && ',' !in [' '] + second && !IsSpace(second[|second| - 1])
    ensures Split(Strip([' '] + first + [','] + [' '] + second), ',') == [first, [' '] + second]
  {
    var t := first + [','] + ([' '] + second);
    assert [' '] + first + [','] + [' '] + second == [' '] + t;
    LeadingSpaceStripped(t);
    SplitTwo(first, [' '] + second, ',');
  }

  lemma LeadingSpaceStripped(t: string)
    requires t != [] && !IsSpace(t[0]) && !IsSpace(t[|t| - 1])
    ensures Strip([' '] + t) == t
  {
    StripLeadingSpace([' '] + t);
    assert ([' '] + t)[1..] == t;
  }

  lemma SplitTwo(a: string, b: string, sep: char)
    requires sep !in a && sep !in b
    ensures Split(a + [sep] + b, sep) == [a, b]
  {
    SplitAt(a, b, sep);
    SplitNoSep(b, sep);
  }

  /** The segment of the sample answer is the text after its only marker. */
  lemma SampleSegment(response: string, rest: string)
    requires response == "카테고리: Semiconductors, Energy/Power"
    requires rest == " Semiconductors, Energy/Power"
    ensures Contains(response, Marker) && Segment(response) == rest
  {
    MarkerFirst(response);
    assert response[5..] == rest;
    RestHasNoMarker(rest);
  }

  lemma MarkerFirst(response: string)
    requires response == "카테고리: Semiconductors, Energy/Power"
    ensures Contains(response, Marker) && PieceStart(response, Marker) == 5
  {
    assert response[..5] == Marker;
    assert OccursAt(response, Marker, 0);
  }

  lemma RestHasNoMarker(rest: string)
    requires rest == " Semiconductors, Energy/Power"
    ensures !Contains(rest, Marker)
  {
    assert '카' !in rest;
    FirstCharAbsent(rest, Marker);
  }
  /**
    `categorize_article`'s result for the model's reply: the parse of the
    stripped reply text, or the default when the model call failed.
  */
  function Categorize(reply: Option<string>): (r: seq<string>)
    ensures r != [] && forall c :: c in r ==> c in Categories
    ensures reply.None? ==> r == [DefaultCategory]
  {
    DefaultIsListed();
    match reply
    case None => [DefaultCategory]
    case Some(text) => ParseCategories(Strip(text))
  }

  /**
    Only the first segment is read: whatever follows the second marker can
    be replaced by anything without changing the result.
  */
  lemma IgnoresTextAfterSecondMarker(s: string, t: string)
    requires SecondEnd(s, Marker).Some?
    ensures Contains(s, Marker) && Contains(s[..SecondEnd(s, Marker).value] + t, Marker)
    ensures Segment(s[..SecondEnd(s, Marker).value] + t) == Segment(s)
    ensures ParseCategories(s[..SecondEnd(s, Marker).value] + t) == ParseCategories(s)
  {
    SecondPieceIgnoresTail(s, t, Marker);
  }
}

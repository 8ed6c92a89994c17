/**
 The record written by `save_wallet`: each match rendered as
 `<pattern> (<side>)`, the renderings joined with ` & `, and a five-line
 block with fixed labels closed by a rule of 50 dashes. Parsers for the
 rendering, the detail line and the block are given as the inverses the
 format admits.
 */
module Recorder {
  import opened Wrappers
  import opened Text
  import opened Matcher
  import opened Worker

  const Separator: string := " & "

  /** The closing line of every record: 50 dashes. */
  const Rule: string := Repeat('-', 50)

  function SideName(side: Side): string {
    match side
    case Prefix => "Prefix"
    case Suffix => "Suffix"
  }

  /** `f"{pattern} ({type})"`; the rendering reads back as the match it renders. */
  function Render(m: Match): (r: string)
    ensures ParseRender(r) == Some(m)
  {
    TagInverse(m.side, "");
    var r := m.pattern + Tag(m.side);
    assert r[..|r| - 9] == m.pattern && r[|r| - 9..] == Tag(m.side);
    r
  }

  /** What a rendering puts after the pattern: ` (Prefix)` or ` (Suffix)`, nine characters either way. */
  function Tag(side: Side): string {
    " (" + SideName(side) + ")"
  }

  /** The side a nine-character tag names, if it is one. */
  function TagSide(t: string): Option<Side> {
    if t == Tag(Prefix) then Some(Prefix)
    else if t == Tag(Suffix) then Some(Suffix)
    else None
  }

  lemma TagInverse(side: Side, t: string)
    ensures |Tag(side)| == 9
    ensures TagSide(Tag(side)) == Some(side)
    ensures TagSide(t) == Some(side) ==> t == Tag(side)
  {
    assert Tag(Prefix)[2] != Tag(Suffix)[2];
  }

  /** Reads a rendering back: the last nine characters name the side, the rest is the pattern. */
  function ParseRender(s: string): (r: Option<Match>)
    ensures r.Some? ==> |r.value.pattern| + 9 == |s|
  {
    if |s| < 9 then None
    else
      match TagSide(s[|s| - 9..])
      case None => None
      case Some(side) => Some(Match(s[..|s| - 9], side))
  }

  /** Rendering is injective: parsing a rendering gives the match back, and only a rendering parses. */
  lemma RenderRoundTrip(m: Match, s: string)
    ensures ParseRender(Render(m)) == Some(m)
    ensures ParseRender(s) == Some(m) ==> Render(m) == s
  {
    if ParseRender(s) == Some(m) {
      TagInverse(m.side, s[|s| - 9..]);
      assert s == s[..|s| - 9] + s[|s| - 9..];
    }
  }

  function Renders(matches: seq<Match>): (r: seq<string>)
    ensures |r| == |matches|
    ensures forall k :: 0 <= k < |matches| ==> r[k] == Render(matches[k])
  {
    seq(|matches|, k requires 0 <= k < |matches| => Render(matches[k]))
  }

  /**
   The `Match Details` text: the renderings in match order, joined with ` & `.
   For the one or two matches an attempt can report it is the rendering
   alone, or the Prefix rendering, ` & `, then the Suffix rendering.
   */
  function Details(matches: seq<Match>): (r: string)
    ensures matches == [] ==> r == ""
    ensures |matches| == 1 ==> r == Render(matches[0])
    ensures |matches| == 2 ==> r == Render(matches[0]) + Separator + Render(matches[1])
  {
    assert |matches| == 2 ==> Join(Renders(matches)[1..], Separator) == Render(matches[1]);
    Join(Renders(matches), Separator)
  }

  /** The detail text of one match followed by more. */
  lemma DetailsCons(m: Match, rest: seq<Match>)
    ensures rest == [] ==> Details([m] + rest) == Render(m)
    ensures rest != [] ==> Details([m] + rest) == Render(m) + Separator + Details(rest)
  {
    assert Renders([m] + rest)[1..] == Renders(rest);
  }

  /** Every match has a pattern free of `c`. */
  predicate PatternsFree(matches: seq<Match>, c: char) {
    forall k :: 0 <= k < |matches| ==> c !in matches[k].pattern
  }

  lemma RenderFree(m: Match, c: char)
    requires c !in m.pattern && c !in " ()PrefixSuffix"
    ensures c !in Render(m)
  {
  }

  /**
   A single match renders without the ` & ` separator when its pattern has no
   `&`; then the detail text is exactly that one rendering.
   */
  lemma SingleMatchHasNoSeparator(m: Match)
    requires '&' !in m.pattern
    ensures Details([m]) == Render(m)
    ensures !Contains(Details([m]), Separator)
  {
    DetailsCons(m, []);
    RenderFree(m, '&');
    NotContainedByChar(Render(m), Separator, '&');
  }

  /**
   Reads a detail text back into its matches: split at each `&`, which must
   sit between two spaces, and parse the pieces as renderings.
   */
  function ParseDetails(s: string): Option<seq<Match>> {
    if s == "" then Some([]) else ParseRenderings(s)
  }

  /** Splits `<head> & <tail>` at the first `&`, which must sit between two spaces. */
  function SplitAtSeparator(s: string): (r: Option<(string, string)>)
    requires '&' in s
    ensures r.Some? ==> s == r.value.0 + Separator + r.value.1
    ensures r.Some? ==> '&' !in r.value.0 && |r.value.1| < |s|
  {
    var k := IndexOf(s, '&');
    if 1 <= k && k + 1 < |s| && s[k - 1] == ' ' && s[k + 1] == ' ' then
      assert s == s[..k - 1] + Separator + s[k + 2..];
      assert s[..k - 1] == s[..k][..k - 1];
      Some((s[..k - 1], s[k + 2..]))
    else None
  }

  /** A head without `&` is split off exactly. */
  lemma SplitAtSeparatorJoined(head: string, tail: string)
    requires '&' !in head
    ensures '&' in head + Separator + tail
    ensures SplitAtSeparator(head + Separator + tail) == Some((head, tail))
  {
    var s := head + Separator + tail;
    assert s[|head| + 1] == '&';
    assert s[..|head| + 1] == head + " ";
    var k := IndexOf(s, '&');
    assert k == |head| + 1;
    assert s[..k - 1] == head;
    assert s[k + 2..] == tail;
  }

  function Single(m: Option<Match>): Option<seq<Match>> {
    if m.Some? then Some([m.value]) else None
  }

  function Prepend(m: Option<Match>, ms: Option<seq<Match>>): Option<seq<Match>> {
    if m.Some? && ms.Some? then Some([m.value] + ms.value) else None
  }

  function ParseRenderings(s: string): (r: Option<seq<Match>>)
    ensures r.Some? ==> |r.value| >= 1
    decreases |s|
  {
    if '&' !in s then Single(ParseRender(s))
    else
      match SplitAtSeparator(s)
      case None => None
      case Some(parts) => Prepend(ParseRender(parts.0), ParseRenderings(parts.1))
  }

  /** The detail text determines the match list, as long as no pattern holds `&`. */
  lemma DetailsRoundTrip(matches: seq<Match>)
    requires PatternsFree(matches, '&')
    ensures ParseDetails(Details(matches)) == Some(matches)
  {
    if matches != [] {
      RenderingsRoundTrip(matches);
    }
  }

  lemma {:induction false} RenderingsRoundTrip(matches: seq<Match>)
    requires matches != []
    requires PatternsFree(matches, '&')
    ensures ParseRenderings(Details(matches)) == Some(matches)
    decreases |matches|
  {
    var m, rest := matches[0], matches[1..];
    assert matches == [m] + rest;
    DetailsCons(m, rest);
    RenderFree(m, '&');
    RenderRoundTrip(m, "");
    if rest == [] {
      assert matches == [m] && Details(matches) == Render(m);
      assert ParseRenderings(Render(m)) == Some([m]);
    } else {
      SplitAtSeparatorJoined(Render(m), Details(rest));
      RenderingsRoundTrip(rest);
    }
  }

  /** Only a genuine detail text parses: whatever parses is rebuilt exactly by `Details`. */
  lemma ParseDetailsExact(s: string, matches: seq<Match>)
    requires ParseDetails(s) == Some(matches)
    ensures Details(matches) == s
  {
    if s != "" {
      ParseRenderingsExact(s, matches);
    }
  }

  lemma {:induction false} ParseRenderingsExact(s: string, matches: seq<Match>)
    requires ParseRenderings(s) == Some(matches)
    ensures Details(matches) == s
    decreases |s|
  {
    if '&' !in s {
      var m := ParseRender(s).value;
      assert matches == [m] + [];
      RenderRoundTrip(m, s);
      DetailsCons(m, []);
    } else {
      var parts := SplitAtSeparator(s).value;
      var m := ParseRender(parts.0).value;
      var rest := ParseRenderings(parts.1).value;
      assert matches == [m] + rest;
      RenderRoundTrip(m, parts.0);
      ParseRenderingsExact(parts.1, rest);
      DetailsCons(m, rest);
    }
  }

  /** The four labelled values of one saved record. */
  datatype Fields = Fields(address: string, privateKey: string, mnemonic: string, details: string)

  /** The lines of a record, in the order they are written. */
  function Labelled(f: Fields): seq<string> {
    ["Address: " + f.address, "Private Key: " + f.privateKey, "Mnemonic: " + f.mnemonic,
     "Match Details: " + f.details, Rule]
  }

  /** Successive `write(line + "\n")` calls. */
  function WriteLines(lines: seq<string>): string
    decreases |lines|
  {
    if lines == [] then "" else lines[0] + "\n" + WriteLines(lines[1..])
  }

  /**
   The block appended to the output file for one record: the labelled lines
   joined by newlines with a final newline, so that with single-line values
   splitting on newlines gives the lines back followed by an empty tail.
   */
  function Block(f: Fields): (r: string)
    ensures Join(Labelled(f) + [""], "\n") == r
    ensures SingleLine(f) ==> Split(r, '\n') == Labelled(f) + [""]
  {
    var lines := Labelled(f);
    JoinIsWriteLines(lines);
    if SingleLine(f) then
      assert '\n' !in Rule;
      SplitWriteLines(lines);
      WriteLines(lines)
    else
      WriteLines(lines)
  }

  predicate SingleLine(f: Fields) {
    '\n' !in f.address && '\n' !in f.privateKey && '\n' !in f.mnemonic && '\n' !in f.details
  }

  /**
   `save_wallet`'s text for one found identity. When the address, key,
   mnemonic and patterns are single lines, the block reads back as exactly
   those values and the detail text of the matches.
   */
  function Format(address: string, privateKey: string, mnemonic: string, matches: seq<Match>): (r: string)
    ensures '\n' !in address && '\n' !in privateKey && '\n' !in mnemonic && PatternsFree(matches, '\n') ==>
              ParseBlock(r) == Some(Fields(address, privateKey, mnemonic, Details(matches)))
  {
    var f := Fields(address, privateKey, mnemonic, Details(matches));
    DetailsSingleLine(matches);
    BlockRoundTrip(f);
    Block(f)
  }

  /** Reads a block back: exactly five labelled lines and the rule, each ended by a newline. */
  function ParseBlock(s: string): Option<Fields> {
    var lines := Split(s, '\n');
    if && |lines| == 6
       && StartsWith(lines[0], "Address: ")
       && StartsWith(lines[1], "Private Key: ")
       && StartsWith(lines[2], "Mnemonic: ")
       && StartsWith(lines[3], "Match Details: ")
       && lines[4] == Rule
       && lines[5] == ""
    then Some(Fields(lines[0][9..], lines[1][13..], lines[2][10..], lines[3][15..]))
    else None
  }

  /** Lines free of newlines are recovered by splitting, with one empty piece after the last newline. */
  lemma {:induction false} SplitWriteLines(lines: seq<string>)
    requires forall k :: 0 <= k < |lines| ==> '\n' !in lines[k]
    ensures Split(WriteLines(lines), '\n') == lines + [""]
    decreases |lines|
  {
    if lines == [] {
      SplitWhole("", '\n');
    } else {
      SplitWriteLines(lines[1..]);
      SplitAfterPiece(lines[0], WriteLines(lines[1..]), '\n');
      assert lines == [lines[0]] + lines[1..];
    }
  }

  /** Joining lines and a final empty piece with newlines is writing the lines. */
  lemma {:induction false} JoinIsWriteLines(lines: seq<string>)
    ensures Join(lines + [""], "\n") == WriteLines(lines)
    decreases |lines|
  {
    if lines != [] {
      JoinIsWriteLines(lines[1..]);
      assert (lines + [""])[1..] == lines[1..] + [""];
    }
  }

  /** Splitting a record on newlines recovers each value verbatim. */
  lemma BlockRoundTrip(f: Fields)
    ensures SingleLine(f) ==> ParseBlock(Block(f)) == Some(f)
  {
    var lines := Labelled(f) + [""];
    assert lines[0][9..] == f.address;
    assert lines[1][13..] == f.privateKey;
    assert lines[2][10..] == f.mnemonic;
    assert lines[3][15..] == f.details;
  }

  /** Only a genuine block parses: whatever parses is rebuilt exactly by `Block`. */
  lemma ParseBlockExact(s: string, f: Fields)
    requires ParseBlock(s) == Some(f)
    ensures SingleLine(f)
    ensures Block(f) == s
  {
    var lines := Split(s, '\n');
    assert lines[0] == "Address: " + f.address;
    assert lines[1] == "Private Key: " + f.privateKey;
    assert lines[2] == "Mnemonic: " + f.mnemonic;
    assert lines[3] == "Match Details: " + f.details;
    assert lines == Labelled(f) + [""];
  }

  /** Reads a whole saved record back into the identity and matches it was written from. */
  function ParseRecord(s: string): Option<Found> {
    match ParseBlock(s)
    case None => None
    case Some(f) =>
      match ParseDetails(f.details)
      case None => None
      case Some(matches) => Some(Found(f.address, f.privateKey, f.mnemonic, matches))
  }

  /** The detail text is a single line when every pattern is. */
  lemma DetailsSingleLine(matches: seq<Match>)
    ensures PatternsFree(matches, '\n') ==> '\n' !in Details(matches)
  {
    if PatternsFree(matches, '\n') {
      var parts := Renders(matches);
      forall k | 0 <= k < |parts|
        ensures '\n' !in parts[k]
      {
        RenderFree(matches[k], '\n');
      }
      JoinFree(parts, Separator, '\n');
    }
  }

  /**
   Round trip of `save_wallet`'s text: when the address, key and mnemonic are
   single lines and no pattern holds a newline or `&`, the record gives back
   the identity and the match list.
   */
  lemma RecordRoundTrip(found: Found)
    requires '\n' !in found.address && '\n' !in found.privateKey && '\n' !in found.mnemonic
    requires PatternsFree(found.matches, '\n') && PatternsFree(found.matches, '&')
    ensures ParseRecord(Format(found.address, found.privateKey, found.mnemonic, found.matches)) == Some(found)
  {
    var f := Fields(found.address, found.privateKey, found.mnemonic, Details(found.matches));
    DetailsSingleLine(found.matches);
    BlockRoundTrip(f);
    DetailsRoundTrip(found.matches);
  }

  /** Only a genuine record parses: whatever parses is rebuilt exactly by `Format`. */
  lemma ParseRecordExact(s: string, found: Found)
    requires ParseRecord(s) == Some(found)
    ensures Format(found.address, found.privateKey, found.mnemonic, found.matches) == s
  {
    var f := ParseBlock(s).value;
    ParseBlockExact(s, f);
    ParseDetailsExact(f.details, found.matches);
  }
}

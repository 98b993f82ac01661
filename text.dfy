/**
 String helpers the blog application borrows from Python's `str`:
 `lower()`, the `in` substring test, `strip()`, `split(',')`, `", ".join(...)`,
 and the tag-parsing comprehension built from them.
 */
module Text {

  /** Python's `str.isspace()` for one code point. */
  predicate IsSpace(c: char) {
    || c == ' '
    || '\t' <= c <= '\r'
    || '\U{1c}' <= c <= '\U{1f}'
    || c == '\U{85}' || c == '\U{a0}' || c == '\U{1680}'
    || '\U{2000}' <= c <= '\U{200a}'
    || c == '\U{2028}' || c == '\U{2029}' || c == '\U{202f}' || c == '\U{205f}' || c == '\U{3000}'
  }

  /** Lower-case mapping for the ASCII and Latin-1 upper-case letters; every other code point is kept. */
  function LowerChar(c: char): (r: char)
    ensures !('A' <= r <= 'Z')
    ensures 'a' <= c <= 'z' ==> r == c
  {
    if 'A' <= c <= 'Z' || ('\U{c0}' <= c <= '\U{de}' && c != '\U{d7}') then
      (c as int + 32) as char
    else
      c
  }

  /** `s.lower()`, code point by code point. */
  function Lower(s: string): (r: string)
    ensures |r| == |s|
  {
    if s == [] then [] else [LowerChar(s[0])] + Lower(s[1..])
  }

  /** Character `i` of `s.lower()` is character `i` of `s`, lower-cased. */
  lemma {:induction false} LowerElements(s: string)
    ensures forall i :: 0 <= i < |s| ==> Lower(s)[i] == LowerChar(s[i])
    decreases |s|
  {
    if s != [] {
      LowerElements(s[1..]);
      assert forall i :: 1 <= i < |s| ==> s[1..][i - 1] == s[i];
    }
  }

  lemma LowerCharIdempotent(c: char)
    ensures LowerChar(LowerChar(c)) == LowerChar(c)
  {
  }

  /** Lower-casing twice is lower-casing once. */
  lemma LowerIdempotent(s: string)
    ensures Lower(Lower(s)) == Lower(s)
  {
    LowerElements(s);
    LowerElements(Lower(s));
    forall i | 0 <= i < |s| ensures Lower(Lower(s))[i] == Lower(s)[i] {
      LowerCharIdempotent(s[i]);
    }
  }

  /** `needle` occurs in `hay` at some offset: the meaning of Python's `needle in hay`. */
  ghost predicate IsSubstring(needle: string, hay: string) {
    exists i :: OccursAt(needle, hay, i)
  }

  /** `needle` occurs in `hay` starting at offset `i`. */
  ghost predicate OccursAt(needle: string, hay: string, i: int) {
    0 <= i && i + |needle| <= |hay| && hay[i..i + |needle|] == needle
  }

  /** Python's `needle in hay`, by scanning `hay` from the left. */
  function Contains(hay: string, needle: string): (r: bool)
    ensures needle == [] ==> r
    ensures r ==> |needle| <= |hay|
    decreases |hay|
  {
    needle <= hay || (hay != [] && Contains(hay[1..], needle))
  }

  /** An occurrence in the tail is an occurrence one place further on. */
  lemma OccursInTail(needle: string, hay: string, i: int)
    requires hay != [] && OccursAt(needle, hay[1..], i)
    ensures OccursAt(needle, hay, i + 1)
  {
    assert hay[i + 1..i + 1 + |needle|] == hay[1..][i..i + |needle|];
  }

  /** An occurrence past the first character is an occurrence in the tail. */
  lemma OccursPastHead(needle: string, hay: string, i: int)
    requires 0 < i && OccursAt(needle, hay, i)
    ensures OccursAt(needle, hay[1..], i - 1)
  {
    assert hay[1..][i - 1..i - 1 + |needle|] == hay[i..i + |needle|];
  }

  lemma {:induction false} ContainsIsSubstring(hay: string, needle: string)
    ensures Contains(hay, needle) <==> IsSubstring(needle, hay)
    decreases |hay|
  {
    if needle <= hay {
      assert OccursAt(needle, hay, 0);
    } else if hay == [] {
      assert !IsSubstring(needle, hay);
    } else {
      ContainsIsSubstring(hay[1..], needle);
      if IsSubstring(needle, hay[1..]) {
        var i :| OccursAt(needle, hay[1..], i);
        OccursInTail(needle, hay, i);
      }
      if IsSubstring(needle, hay) {
        var i :| OccursAt(needle, hay, i);
        assert i != 0 by {
          assert !OccursAt(needle, hay, 0);
        }
        OccursPastHead(needle, hay, i);
      }
    }
  }

  /** The empty string is in every string. */
  lemma EmptyIsEverywhere(hay: string)
    ensures Contains(hay, [])
  {
  }

  /** `s.lstrip()`. */
  function TrimStart(s: string): string
    decreases |s|
  {
    if s != [] && IsSpace(s[0]) then TrimStart(s[1..]) else s
  }

  /** `s.rstrip()`. */
  function TrimEnd(s: string): string
    decreases |s|
  {
    if s != [] && IsSpace(s[|s| - 1]) then TrimEnd(s[..|s| - 1]) else s
  }

  /** `TrimStart(s)` is the longest suffix of `s` that does not start with whitespace. */
  lemma {:induction false} TrimStartIsSuffix(s: string)
    ensures var r := TrimStart(s);
            |r| <= |s| && r == s[|s| - |r|..]
            && (forall i :: 0 <= i < |s| - |r| ==> IsSpace(s[i]))
            && (r != [] ==> !IsSpace(r[0]))
    decreases |s|
  {
    if s != [] && IsSpace(s[0]) {
      TrimStartIsSuffix(s[1..]);
    }
  }

  /** `TrimEnd(s)` is the longest prefix of `s` that does not end with whitespace. */
  lemma {:induction false} TrimEndIsPrefix(s: string)
    ensures var r := TrimEnd(s);
            |r| <= |s| && r == s[..|r|]
            && (forall i :: |r| <= i < |s| ==> IsSpace(s[i]))
            && (r != [] ==> !IsSpace(r[|r| - 1]))
    decreases |s|
  {
    if s != [] && IsSpace(s[|s| - 1]) {
      TrimEndIsPrefix(s[..|s| - 1]);
    }
  }

  /** `s.strip()`. */
  function Strip(s: string): string {
    TrimEnd(TrimStart(s))
  }

  /** No whitespace at either end. */
  predicate IsStripped(s: string) {
    s != [] ==> !IsSpace(s[0]) && !IsSpace(s[|s| - 1])
  }

  /**
   `Strip(s)` is the infix `s[a..b]` left after removing whitespace on both
   sides, and it has no whitespace at either end.
   */
  lemma StripIsTrimmedInfix(s: string)
    ensures IsStripped(Strip(s))
    ensures |TrimStart(s)| <= |s|
    ensures var a := |s| - |TrimStart(s)|;
            a + |Strip(s)| <= |s| && Strip(s) == s[a..a + |Strip(s)|]
            && (forall i :: 0 <= i < a ==> IsSpace(s[i]))
            && (forall i :: a + |Strip(s)| <= i < |s| ==> IsSpace(s[i]))
  {
    var t := TrimStart(s);
    var r := TrimEnd(t);
    var a := |s| - |t|;
    TrimStartIsSuffix(s);
    TrimEndIsPrefix(t);
    assert t == s[a..];
    assert r == t[..|r|];
    assert r == s[a..a + |r|];
    forall i | a + |r| <= i < |s| ensures IsSpace(s[i]) {
      assert s[i] == t[i - a];
    }
    if r != [] {
      assert r[0] == t[0];
    }
  }

  /** Stripping a stripped string changes nothing. */
  lemma StripOfStripped(s: string)
    requires IsStripped(s)
    ensures Strip(s) == s
  {
  }

  /** `Strip(s)` is empty exactly when `s` is all whitespace. */
  lemma StripEmptyIffAllSpace(s: string)
    ensures Strip(s) == [] <==> forall i :: 0 <= i < |s| ==> IsSpace(s[i])
  {
    StripIsTrimmedInfix(s);
  }

  /** Whitespace in front of a string does not survive `strip()`. */
  lemma StripSkipsLeadingSpace(c: char, s: string)
    requires IsSpace(c)
    ensures Strip([c] + s) == Strip(s)
  {
    assert ([c] + s)[1..] == s;
  }

  /** `s.split(sep)`: the pieces between the separators, always at least one. */
  function Split(s: string, sep: char): (r: seq<string>)
    ensures 1 <= |r| <= |s| + 1
    decreases |s|
  {
    if s == [] then [[]]
    else
      var rest := Split(s[1..], sep);
      if s[0] == sep then [[]] + rest else [[s[0]] + rest[0]] + rest[1..]
  }

  /** `glue.join(pieces)`. */
  function Join(pieces: seq<string>, glue: string): (r: string)
    ensures pieces != [] ==> pieces[0] <= r
    decreases |pieces|
  {
    if pieces == [] then []
    else if |pieces| == 1 then pieces[0]
    else pieces[0] + glue + Join(pieces[1..], glue)
  }

  /** No piece of a split contains the separator. */
  lemma {:induction false} SplitPiecesHaveNoSeparator(s: string, sep: char)
    ensures forall k :: 0 <= k < |Split(s, sep)| ==> sep !in Split(s, sep)[k]
    decreases |s|
  {
    if s != [] {
      SplitPiecesHaveNoSeparator(s[1..], sep);
    }
  }

  /** Joining the pieces of a split with the separator gives the string back. */
  lemma {:induction false} JoinSplit(s: string, sep: char)
    ensures Join(Split(s, sep), [sep]) == s
    decreases |s|
  {
    if s != [] {
      var rest := Split(s[1..], sep);
      JoinSplit(s[1..], sep);
      if s[0] == sep {
        assert Split(s, sep) == [[]] + rest;
        assert ([[]] + rest)[1..] == rest;
      } else {
        var r := [[s[0]] + rest[0]] + rest[1..];
        if |rest| == 1 {
          assert Join(rest, [sep]) == rest[0];
        } else {
          assert rest == [rest[0]] + rest[1..];
          assert Join(rest, [sep]) == rest[0] + [sep] + Join(rest[1..], [sep]);
          assert r[1..] == rest[1..];
        }
      }
    }
  }

  /** A string without the separator splits into itself alone. */
  lemma {:induction false} SplitWithoutSeparator(s: string, sep: char)
    requires sep !in s
    ensures Split(s, sep) == [s]
    decreases |s|
  {
    if s != [] {
      assert sep !in s[1..] by { forall c | c in s[1..] ensures c in s { } }
      SplitWithoutSeparator(s[1..], sep);
      assert [s[0]] + s[1..] == s;
    }
  }

  /** A separator between two strings splits them apart: the pieces of `a`, then those of `b`. */
  lemma {:induction false} SplitAround(a: string, b: string, sep: char)
    ensures Split(a + [sep] + b, sep) == Split(a, sep) + Split(b, sep)
    decreases |a|
  {
    var s := a + [sep] + b;
    if a == [] {
      assert s == [sep] + b;
      assert s[1..] == b;
    } else {
      assert s[1..] == a[1..] + [sep] + b;
      SplitAround(a[1..], b, sep);
    }
  }

  /** Strips every piece and keeps the non-empty results, in order. */
  function CleanPieces(pieces: seq<string>): (r: seq<string>)
    ensures |r| <= |pieces|
    decreases |pieces|
  {
    if pieces == [] then []
    else
      var t := Strip(pieces[0]);
      (if t != [] then [t] else []) + CleanPieces(pieces[1..])
  }

  /** `[tag.strip() for tag in text.split(',') if tag.strip()]`. */
  function ParseTags(text: string): (r: seq<string>)
    ensures |r| <= |Split(text, ',')|
  {
    CleanPieces(Split(text, ','))
  }

  /** What every parsed tag looks like: non-empty, comma-free, with no whitespace at either end. */
  predicate IsCleanTag(t: string) {
    t != [] && ',' !in t && IsStripped(t)
  }

  lemma {:induction false} CleanPiecesAppend(p: seq<string>, q: seq<string>)
    ensures CleanPieces(p + q) == CleanPieces(p) + CleanPieces(q)
    decreases |p|
  {
    if p == [] {
      assert p + q == q;
    } else {
      assert (p + q)[1..] == p[1..] + q;
      CleanPiecesAppend(p[1..], q);
    }
  }

  /** Stripping keeps a character out if it was left out of the original. */
  lemma StripKeepsOut(s: string, c: char)
    requires c !in s
    ensures c !in Strip(s)
  {
    StripIsTrimmedInfix(s);
  }

  lemma {:induction false} CleanPiecesAreClean(pieces: seq<string>)
    requires forall k :: 0 <= k < |pieces| ==> ',' !in pieces[k]
    ensures forall k :: 0 <= k < |CleanPieces(pieces)| ==> IsCleanTag(CleanPieces(pieces)[k])
    decreases |pieces|
  {
    if pieces != [] {
      CleanPiecesAreClean(pieces[1..]);
      StripIsTrimmedInfix(pieces[0]);
      StripKeepsOut(pieces[0], ',');
    }
  }

  /** Every tag the parser produces is non-empty, comma-free and stripped. */
  lemma ParsedTagsAreClean(text: string)
    ensures forall k :: 0 <= k < |ParseTags(text)| ==> IsCleanTag(ParseTags(text)[k])
  {
    SplitPiecesHaveNoSeparator(text, ',');
    CleanPiecesAreClean(Split(text, ','));
  }

  /**
   Parsing keeps order and duplicates: the tags of two comma-joined texts are
   the tags of the first followed by the tags of the second.
   */
  lemma ParseTagsAround(a: string, b: string)
    ensures ParseTags(a + "," + b) == ParseTags(a) + ParseTags(b)
  {
    SplitAround(a, b, ',');
    CleanPiecesAppend(Split(a, ','), Split(b, ','));
  }

  /** Empty text gives no tags. */
  lemma ParseTagsOfEmpty()
    ensures ParseTags("") == []
  {
    assert Split("", ',') == [[]];
  }

  /** All of a string is whitespace. */
  predicate IsBlank(s: string) {
    forall i :: 0 <= i < |s| ==> IsSpace(s[i])
  }

  /** Splitting text of commas and whitespace only gives pieces of whitespace only. */
  lemma {:induction false} SplitOfBlanks(s: string)
    requires forall i :: 0 <= i < |s| ==> IsSpace(s[i]) || s[i] == ','
    ensures forall k :: 0 <= k < |Split(s, ',')| ==> IsBlank(Split(s, ',')[k])
    decreases |s|
  {
    if s != [] {
      assert forall i :: 0 <= i < |s[1..]| ==> s[1..][i] == s[i + 1];
      SplitOfBlanks(s[1..]);
      var rest := Split(s[1..], ',');
      if s[0] != ',' {
        assert forall i :: 1 <= i < |[s[0]] + rest[0]| ==> ([s[0]] + rest[0])[i] == rest[0][i - 1];
      }
    }
  }

  /** Pieces of whitespace only are all dropped. */
  lemma {:induction false} CleanPiecesOfBlanks(pieces: seq<string>)
    requires forall k :: 0 <= k < |pieces| ==> IsBlank(pieces[k])
    ensures CleanPieces(pieces) == []
    decreases |pieces|
  {
    if pieces != [] {
      StripEmptyIffAllSpace(pieces[0]);
      CleanPiecesOfBlanks(pieces[1..]);
    }
  }

  /** Text of commas and whitespace only gives no tags. */
  lemma ParseTagsOfBlanks(text: string)
    requires forall i :: 0 <= i < |text| ==> IsSpace(text[i]) || text[i] == ','
    ensures ParseTags(text) == []
  {
    SplitOfBlanks(text);
    CleanPiecesOfBlanks(Split(text, ','));
  }

  lemma {:induction false} ParseTagsSkipsLeadingSpace(s: string)
    ensures ParseTags(" " + s) == ParseTags(s)
  {
    var x := " " + s;
    assert x[1..] == s;
    var rest := Split(s, ',');
    assert Split(x, ',') == [[' '] + rest[0]] + rest[1..];
    StripSkipsLeadingSpace(' ', rest[0]);
    assert rest == [rest[0]] + rest[1..];
  }

  /** A clean tag parses to itself. */
  lemma ParseTagsOfCleanTag(t: string)
    requires IsCleanTag(t)
    ensures ParseTags(t) == [t]
  {
    SplitWithoutSeparator(t, ',');
    StripOfStripped(t);
    assert [t][1..] == [];
    assert CleanPieces([t]) == [t] + CleanPieces([]);
  }

  /**
   Showing tags as `", ".join(tags)` and parsing the text again gives the same
   tags back, provided every tag is clean.
   */
  lemma {:induction false} ParseTagsOfJoined(tags: seq<string>)
    requires forall k :: 0 <= k < |tags| ==> IsCleanTag(tags[k])
    ensures ParseTags(Join(tags, ", ")) == tags
    decreases |tags|
  {
    if tags == [] {
      ParseTagsOfEmpty();
    } else if |tags| == 1 {
      ParseTagsOfCleanTag(tags[0]);
    } else {
      var rest := Join(tags[1..], ", ");
      assert Join(tags, ", ") == tags[0] + "," + (" " + rest);
      ParseTagsAround(tags[0], " " + rest);
      ParseTagsSkipsLeadingSpace(rest);
      ParseTagsOfCleanTag(tags[0]);
      ParseTagsOfJoined(tags[1..]);
      assert tags == [tags[0]] + tags[1..];
    }
  }

  /** Parsing the shown form of parsed tags gives the same tags: the tag field survives an edit that leaves it alone. */
  lemma ParseTagsIdempotent(text: string)
    ensures ParseTags(Join(ParseTags(text), ", ")) == ParseTags(text)
  {
    ParsedTagsAreClean(text);
    ParseTagsOfJoined(ParseTags(text));
  }
}

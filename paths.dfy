/**
 * Resolving an image identifier to a URL path (`encodeFilePath`): the
 * identifier is split on '/', every segment is passed through a per-segment
 * encoder, and the encoded segments are joined again with '/'.
 *
 * The per-segment encoder (the browser's `encodeURIComponent`) is not modelled;
 * it is a parameter `enc`. Its decoding inverse is the parameter `dec`.
 */
module Paths {

  /** The path separator `encodeFilePath` splits on and joins with. */
  const SEP: char := '/'

  /**
   * JavaScript's `s.split(sep)` for a one-character separator: the maximal
   * runs between separators, in order. There is always at least one part
   * ("" splits into [""], "a/" into ["a", ""]) and no part holds `sep`.
   */
  function Split(s: string, sep: char): (parts: seq<string>)
    ensures |parts| >= 1
    ensures forall i :: 0 <= i < |parts| ==> sep !in parts[i]
    decreases |s|
  {
    if s == [] then [""]
    else
      var rest := Split(s[1..], sep);
      if s[0] == sep then [""] + rest
      else [[s[0]] + rest[0]] + rest[1..]
  }

  /** JavaScript's `parts.join(sep)`: the parts with one `sep` between neighbours. */
  function Join(parts: seq<string>, sep: char): string
  {
    if |parts| == 0 then ""
    else if |parts| == 1 then parts[0]
    else parts[0] + [sep] + Join(parts[1..], sep)
  }

  /** `parts.map(f)`. */
  function MapSegments(f: string -> string, parts: seq<string>): seq<string>
  {
    seq(|parts|, i requires 0 <= i < |parts| => f(parts[i]))
  }

  /** `encodeFilePath(filename)`: split on '/', encode each segment, re-join with '/'. */
  function EncodeFilePath(enc: string -> string, filename: string): string
  {
    Join(MapSegments(enc, Split(filename, SEP)), SEP)
  }

  /** The inverse resolution: split on '/', decode each segment, re-join with '/'. */
  function DecodeFilePath(dec: string -> string, path: string): string
  {
    Join(MapSegments(dec, Split(path, SEP)), SEP)
  }

  /** Joining the parts of a split gives back the string that was split. */
  lemma {:induction false} JoinSplit(s: string, sep: char)
    ensures Join(Split(s, sep), sep) == s
    decreases |s|
  {
    if s != [] {
      var rest := Split(s[1..], sep);
      JoinSplit(s[1..], sep);
      if s[0] == sep {
        assert Split(s, sep) == [""] + rest;
        assert ([""] + rest)[1..] == rest;
      } else {
        var parts := [[s[0]] + rest[0]] + rest[1..];
        assert Split(s, sep) == parts;
        if |rest| == 1 {
          assert Join(parts, sep) == [s[0]] + s[1..];
        } else {
          assert parts[1..] == rest[1..];
          assert Join(rest, sep) == rest[0] + [sep] + Join(rest[1..], sep);
          assert Join(parts, sep) == [s[0]] + (rest[0] + [sep] + Join(rest[1..], sep));
        }
      }
    }
  }

  /** A string without a separator splits into itself alone. */
  lemma {:induction false} SplitWithoutSep(a: string, sep: char)
    requires sep !in a
    ensures Split(a, sep) == [a]
    decreases |a|
  {
    if a != [] {
      SplitWithoutSep(a[1..], sep);
      assert [a[0]] + a[1..] == a;
    }
  }

  /** A separator-free segment followed by a separator splits off as the first part. */
  lemma {:induction false} SplitAfterSegment(a: string, b: string, sep: char)
    requires sep !in a
    ensures Split(a + [sep] + b, sep) == [a] + Split(b, sep)
    decreases |a|
  {
    var s := a + [sep] + b;
    if a == [] {
      assert s[0] == sep && s[1..] == b;
    } else {
      assert s[0] == a[0] && s[1..] == a[1..] + [sep] + b;
      SplitAfterSegment(a[1..], b, sep);
      assert [a[0]] + a[1..] == a;
    }
  }

  /** Splitting a join of separator-free parts gives back the parts. */
  lemma {:induction false} SplitJoin(parts: seq<string>, sep: char)
    requires |parts| >= 1
    requires forall i :: 0 <= i < |parts| ==> sep !in parts[i]
    ensures Split(Join(parts, sep), sep) == parts
    decreases |parts|
  {
    if |parts| == 1 {
      SplitWithoutSep(parts[0], sep);
    } else {
      SplitJoin(parts[1..], sep);
      SplitAfterSegment(parts[0], Join(parts[1..], sep), sep);
      assert [parts[0]] + parts[1..] == parts;
    }
  }

  /**
   * When no encoded segment contains '/' (`encodeURIComponent` escapes '/'),
   * the encoded path has exactly as many '/'-separated segments as the
   * identifier, and segment i of the result is the encoding of segment i of
   * the identifier.
   */
  lemma EncodeFilePathSegments(enc: string -> string, filename: string)
    requires forall x :: SEP !in enc(x)
    ensures |Split(EncodeFilePath(enc, filename), SEP)| == |Split(filename, SEP)|
    ensures forall i :: 0 <= i < |Split(filename, SEP)| ==>
              Split(EncodeFilePath(enc, filename), SEP)[i] == enc(Split(filename, SEP)[i])
  {
    SplitJoin(MapSegments(enc, Split(filename, SEP)), SEP);
  }

  /**
   * Round trip: with a segment decoder that undoes the segment encoder, and an
   * encoder whose output never contains '/', decoding an encoded path gives
   * back the identifier.
   */
  lemma EncodeDecodeRoundTrip(enc: string -> string, dec: string -> string, filename: string)
    requires forall x :: SEP !in enc(x)
    requires forall x :: dec(enc(x)) == x
    ensures DecodeFilePath(dec, EncodeFilePath(enc, filename)) == filename
  {
    var parts := Split(filename, SEP);
    EncodeFilePathSegments(enc, filename);
    assert Split(EncodeFilePath(enc, filename), SEP) == MapSegments(enc, parts);
    assert MapSegments(dec, MapSegments(enc, parts)) == parts;
    JoinSplit(filename, SEP);
  }
}

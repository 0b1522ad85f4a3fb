/** `parseMultipartData` of index.tsx: a string-splitting reading of a
    multipart body, loosely after section 5.1.1 of RFC 2046. The boundary is
    the trimmed first line, the parts are the pieces between occurrences of
    the boundary, and each part is cut into headers and content at the first
    blank line. Nothing else of the RFC (delimiter dashes, the close
    delimiter, transport padding) is honoured by the code, so none of it is
    modelled. */
module Multipart {
  import opened Options
  import opened Text

  const LineFeed := "\n"
  const HeaderSeparator := "\r\n\r\n"
  const ContentTypeLabel := "Content-Type: "

  /** One parsed part: the captured `Content-Type` value, if any, and the
      trimmed content. */
  datatype Part = Part(contentType: Option<string>, content: string)

  /** `data.split('\n')[0]`: the text before the first line feed. */
  function FirstLine(data: string): (line: string)
    ensures line <= data
    ensures forall k :: 0 <= k < |line| ==> line[k] != '\n'
    ensures |line| < |data| ==> data[|line|] == '\n'
  {
    match IndexOf(data, LineFeed, 0)
    case None =>
      assert forall k :: 0 <= k < |data| ==> data[k] != '\n' by {
        forall k | 0 <= k < |data| ensures data[k] != '\n' {
          assert !OccursAt(data, LineFeed, k);
        }
      }
      Split(data, LineFeed)[0]
    case Some(i) =>
      assert forall k :: 0 <= k < i ==> data[k] != '\n' by {
        forall k | 0 <= k < i ensures data[k] != '\n' {
          assert !OccursAt(data, LineFeed, k);
        }
      }
      assert data[i .. i + 1] == LineFeed;
      Split(data, LineFeed)[0]
  }

  /** The boundary: the first line with surrounding white space trimmed. */
  function Boundary(data: string): (boundary: string)
    ensures forall k :: 0 <= k < |boundary| ==> boundary[k] != '\n'
    ensures boundary == [] || (!IsWhiteSpace(boundary[0]) && !IsWhiteSpace(boundary[|boundary| - 1]))
  {
    var line := FirstLine(data);
    TrimAvoids(line, '\n');
    Trim(line)
  }

  /** `data.split(boundary).slice(1, -1)`: every piece but the first and the
      last. */
  function Segments(data: string): (segments: seq<string>)
    ensures |Split(data, Boundary(data))| <= 2 ==> segments == []
    ensures |Split(data, Boundary(data))| > 2 ==>
              |segments| == |Split(data, Boundary(data))| - 2 &&
              forall j :: 0 <= j < |segments| ==> segments[j] == Split(data, Boundary(data))[j + 1]
  {
    var pieces := Split(data, Boundary(data));
    if |pieces| <= 2 then [] else pieces[1 .. |pieces| - 1]
  }

  /** With a non-empty boundary the segments are exactly the text strictly
      between consecutive occurrences of the boundary: the data is the
      discarded first piece, then the segments each framed by the boundary,
      then the discarded last piece, and no segment contains the boundary. */
  lemma SegmentsLieBetweenBoundaries(data: string)
    requires Boundary(data) != []
    ensures forall j :: 0 <= j < |Segments(data)| ==> FreeOf(Segments(data)[j], Boundary(data))
    ensures |Split(data, Boundary(data))| > 2 ==>
              var pieces := Split(data, Boundary(data));
              data == pieces[0] + Boundary(data) + Join(Segments(data), Boundary(data)) + Boundary(data) + pieces[|pieces| - 1]
  {
    var b := Boundary(data);
    var pieces := Split(data, b);
    SplitPiecesAreFree(data, b);
    if |pieces| > 2 {
      MiddleIsFree(pieces, Segments(data), b);
      JoinSplit(data, b);
      JoinFrame(pieces, b);
      assert Segments(data) == pieces[1 .. |pieces| - 1];
    }
  }

  lemma MiddleIsFree(pieces: seq<string>, middle: seq<string>, sep: string)
    requires |pieces| > 2 && middle == pieces[1 .. |pieces| - 1]
    requires forall j :: 0 <= j < |pieces| ==> FreeOf(pieces[j], sep)
    ensures forall j :: 0 <= j < |middle| ==> FreeOf(middle[j], sep)
  {
    forall j | 0 <= j < |middle| ensures FreeOf(middle[j], sep) {
      assert middle[j] == pieces[j + 1];
    }
  }

  /** Joining at least three pieces frames the joined middle by the first
      and last piece. */
  lemma {:induction false} JoinFrame(pieces: seq<string>, sep: string)
    requires |pieces| > 2
    ensures Join(pieces, sep) == pieces[0] + sep + Join(pieces[1 .. |pieces| - 1], sep) + sep + pieces[|pieces| - 1]
    decreases |pieces|
  {
    var tail := pieces[1..];
    if |pieces| == 3 {
      assert Join(tail, sep) == tail[0] + sep + Join(tail[1..], sep);
      assert pieces[1 .. |pieces| - 1] == [pieces[1]];
    } else {
      JoinFrame(tail, sep);
      var middle := pieces[1 .. |pieces| - 1];
      assert tail[1 .. |tail| - 1] == middle[1..];
      assert middle[0] == tail[0];
      assert Join(middle, sep) == middle[0] + sep + Join(middle[1..], sep);
    }
  }

  /** A line terminator for the regular-expression `.`, which matches any
      other character. */
  predicate IsLineTerminator(c: char)
  {
    c == '\n' || c == '\r' || c == '\U{2028}' || c == '\U{2029}'
  }

  /** `/Content-Type: (.+)/` can match at `i`: the label is there and at
      least one non-terminator character follows it. */
  predicate ContentTypeMatchesAt(headers: string, i: nat)
  {
    && OccursAt(headers, ContentTypeLabel, i)
    && i + |ContentTypeLabel| < |headers|
    && !IsLineTerminator(headers[i + |ContentTypeLabel|])
  }

  /** The leftmost position, at or after `from`, where the pattern matches. */
  function FirstContentTypeMatch(headers: string, from: nat): (r: Option<nat>)
    ensures r.Some? ==> from <= r.value && ContentTypeMatchesAt(headers, r.value)
    ensures r.Some? ==> forall k :: from <= k < r.value ==> !ContentTypeMatchesAt(headers, k)
    ensures r.None? ==> forall k :: from <= k <= |headers| ==> !ContentTypeMatchesAt(headers, k)
    decreases |headers| - from
  {
    if from >= |headers| then None
    else if ContentTypeMatchesAt(headers, from) then Some(from)
    else FirstContentTypeMatch(headers, from + 1)
  }

  /** The end of the run of non-terminator characters starting at `i`. */
  function LineEnd(s: string, i: nat): (j: nat)
    requires i <= |s|
    ensures i <= j <= |s|
    ensures forall k :: i <= k < j ==> !IsLineTerminator(s[k])
    ensures j < |s| ==> IsLineTerminator(s[j])
    decreases |s| - i
  {
    if i == |s| || IsLineTerminator(s[i]) then i else LineEnd(s, i + 1)
  }

  /** `i` is where the regular expression matches: the leftmost position
      at which it can. */
  predicate IsLeftmostMatch(headers: string, i: nat)
  {
    && ContentTypeMatchesAt(headers, i)
    && forall k :: 0 <= k < i ==> !ContentTypeMatchesAt(headers, k)
  }

  /** `value` is what the greedy `(.+)` captures from `start`: a non-empty
      run of non-terminator characters ending at a terminator or at the end. */
  predicate IsCaptureAt(headers: string, start: nat, value: string)
  {
    && value != []
    && start + |value| <= |headers|
    && headers[start .. start + |value|] == value
    && (forall k :: 0 <= k < |value| ==> !IsLineTerminator(value[k]))
    && (start + |value| < |headers| ==> IsLineTerminator(headers[start + |value|]))
  }

  /** `headers.match(/Content-Type: (.+)/)?.[1]`: the greedy capture at the
      leftmost match, that is, the rest of the line after the first
      "Content-Type: " that is followed by at least one character on its
      line; `None` when there is no such occurrence. */
  function ContentType(headers: string): (r: Option<string>)
    ensures r.None? <==> forall k :: 0 <= k <= |headers| ==> !ContentTypeMatchesAt(headers, k)
    ensures r.Some? ==> exists i: nat :: IsLeftmostMatch(headers, i) && IsCaptureAt(headers, i + |ContentTypeLabel|, r.value)
  {
    match FirstContentTypeMatch(headers, 0)
    case None => None
    case Some(i) =>
      var start := i + |ContentTypeLabel|;
      var end := LineEnd(headers, start);
      assert end != start by {
        assert !IsLineTerminator(headers[start]);
      }
      var value := headers[start .. end];
      assert IsLeftmostMatch(headers, i);
      assert IsCaptureAt(headers, start, value) by {
        assert forall k :: 0 <= k < |value| ==> value[k] == headers[start + k];
      }
      Some(value)
  }

  /** One part of `parts.map(...)`; `None` when `content.trim()` would throw
      because the part has no blank line. */
  function ParsePart(segment: string): (r: Option<Part>)
    ensures r.None? <==> FreeOf(segment, HeaderSeparator)
    ensures r.Some? ==>
              IndexOf(segment, HeaderSeparator, 0).Some? &&
              var i := IndexOf(segment, HeaderSeparator, 0).value;
              i + |HeaderSeparator| <= |segment| &&
              r.value.contentType == ContentType(segment[..i]) &&
              exists c :: RunsToNext(segment[i + |HeaderSeparator| ..], HeaderSeparator, c) && r.value.content == Trim(c)
  {
    // `const [headers, content] = part.split('\r\n\r\n')`
    var (headers, content) := FirstTwoPieces(segment, HeaderSeparator);
    match content
    case None => None
    case Some(c) => Some(Part(ContentType(headers), Trim(c)))
  }

  /** `parts.map(...)`, which throws as soon as one part throws. */
  function ParseParts(segments: seq<string>): (r: Option<seq<Part>>)
    ensures r.None? <==> exists j :: 0 <= j < |segments| && ParsePart(segments[j]).None?
    ensures r.Some? ==> |r.value| == |segments|
    ensures r.Some? ==> forall j :: 0 <= j < |segments| ==> ParsePart(segments[j]) == Some(r.value[j])
  {
    MapAll(ParsePart, segments)
  }

  /** `parseMultipartData(data)`: `None` when it throws. */
  function ParseMultipartData(data: string): (r: Option<seq<Part>>)
    ensures r.None? <==> exists j :: 0 <= j < |Segments(data)| && FreeOf(Segments(data)[j], HeaderSeparator)
    ensures r.Some? ==> |r.value| == |Segments(data)|
    ensures r.Some? ==> forall j :: 0 <= j < |r.value| ==> ParsePart(Segments(data)[j]) == Some(r.value[j])
  {
    ParseParts(Segments(data))
  }

  /** With an empty boundary, `split` cuts the data into single characters,
      none of which can hold a blank line, so the parse yields no part at all
      or throws. */
  lemma EmptyBoundaryYieldsNothing(data: string)
    requires Boundary(data) == []
    ensures ParseMultipartData(data) == Some([]) || ParseMultipartData(data).None?
  {
    var segments := Segments(data);
    if segments != [] {
      var pieces := Split(data, []);
      assert segments[0] == pieces[1] == [data[1]];
      assert FreeOf(segments[0], HeaderSeparator);
    }
  }
}

/** The JavaScript string operations the tool relies on: `toUpperCase` (on
    ASCII letters), `trim`, and `split` with a string separator. */
module Text {
  import opened Options

  predicate IsAsciiLower(c: char)
  {
    'a' <= c <= 'z'
  }

  /** Upper-cases one character; only the ASCII letters `a` .. `z` change. */
  function UpperChar(c: char): (u: char)
    ensures !IsAsciiLower(u)
    ensures IsAsciiLower(c) ==> u as int + 0x20 == c as int
    ensures !IsAsciiLower(c) ==> u == c
  {
    if IsAsciiLower(c) then (c as int - 0x20) as char else c
  }

  /** `s.toUpperCase()` restricted to ASCII: the same length, no lower-case
      ASCII letter left, and each character upper-cased in place. */
  function ToUpper(s: string): (r: string)
    ensures |r| == |s|
    ensures forall i :: 0 <= i < |s| ==> r[i] == UpperChar(s[i])
    ensures forall i :: 0 <= i < |r| ==> !IsAsciiLower(r[i])
  {
    if s == [] then [] else [UpperChar(s[0])] + ToUpper(s[1..])
  }

  /** Upper-casing twice is upper-casing once. */
  lemma ToUpperIdempotent(s: string)
    ensures ToUpper(ToUpper(s)) == ToUpper(s)
  {
  }

  /** The characters `String.prototype.trim` removes: the ECMAScript
      WhiteSpace and LineTerminator code points. */
  predicate IsWhiteSpace(c: char)
  {
    || c == '\t' || c == '\n' || c == '\U{0B}' || c == '\U{0C}' || c == '\r'
    || c == ' ' || c == '\U{A0}' || c == '\U{1680}'
    || ('\U{2000}' <= c <= '\U{200A}')
    || c == '\U{2028}' || c == '\U{2029}' || c == '\U{202F}' || c == '\U{205F}'
    || c == '\U{3000}' || c == '\U{FEFF}'
  }

  /** `s` with its leading white space removed: a suffix of `s` that starts
      with a non-space, everything cut off being white space. */
  function TrimStart(s: string): (r: string)
    ensures |r| <= |s| && r == s[|s| - |r|..]
    ensures forall k :: 0 <= k < |s| - |r| ==> IsWhiteSpace(s[k])
    ensures r == [] || !IsWhiteSpace(r[0])
  {
    if s != [] && IsWhiteSpace(s[0]) then
      var r := TrimStart(s[1..]);
      assert s[1..][|s| - 1 - |r|..] == s[|s| - |r|..];
      assert forall k :: 1 <= k < |s| - |r| ==> s[1..][k - 1] == s[k];
      r
    else s
  }

  /** `s` with its trailing white space removed: a prefix of `s` that ends
      with a non-space, everything cut off being white space. */
  function TrimEnd(s: string): (r: string)
    ensures |r| <= |s| && r == s[..|r|]
    ensures forall k :: |r| <= k < |s| ==> IsWhiteSpace(s[k])
    ensures r == [] || !IsWhiteSpace(r[|r| - 1])
  {
    if s != [] && IsWhiteSpace(s[|s| - 1]) then TrimEnd(s[..|s| - 1]) else s
  }

  /** `s.trim()`: the slice of `s` left once white space is cut from both ends. */
  function Trim(s: string): (r: string)
    ensures exists i, j :: 0 <= i <= j <= |s| && r == s[i..j]
                        && (forall k :: 0 <= k < i ==> IsWhiteSpace(s[k]))
                        && (forall k :: j <= k < |s| ==> IsWhiteSpace(s[k]))
    ensures r == [] || (!IsWhiteSpace(r[0]) && !IsWhiteSpace(r[|r| - 1]))
  {
    var t := TrimStart(s);
    var r := TrimEnd(t);
    var i := |s| - |t|;
    assert r == s[i..i + |r|];
    r
  }

  /** A character absent from `s` is absent from its trimmed form. */
  lemma TrimAvoids(s: string, c: char)
    requires forall k :: 0 <= k < |s| ==> s[k] != c
    ensures forall k :: 0 <= k < |Trim(s)| ==> Trim(s)[k] != c
  {
    var t := TrimStart(s);
    SliceAvoids(s, c, |s| - |t|, |s|);
    SliceAvoids(t, c, 0, |TrimEnd(t)|);
  }

  lemma SliceAvoids(s: string, c: char, i: nat, j: nat)
    requires i <= j <= |s| && forall k :: 0 <= k < |s| ==> s[k] != c
    ensures forall k :: 0 <= k < j - i ==> s[i..j][k] != c
  {
    assert forall k :: 0 <= k < j - i ==> s[i..j][k] == s[i + k];
  }

  /** Trimming a trimmed string changes nothing. */
  lemma TrimIdempotent(s: string)
    ensures Trim(Trim(s)) == Trim(s)
  {
    var r := Trim(s);
    assert TrimStart(r) == r;
    assert TrimEnd(r) == r;
  }

  /** `pat` occurs in `s` at position `k`. */
  predicate OccursAt(s: string, pat: string, k: nat)
  {
    k + |pat| <= |s| && s[k .. k + |pat|] == pat
  }

  /** `s` contains no occurrence of `pat`. */
  predicate FreeOf(s: string, pat: string)
  {
    forall k :: 0 <= k <= |s| ==> !OccursAt(s, pat, k)
  }

  /** `s.indexOf(pat, from)`: the first occurrence of `pat` at or after
      `from`, or `None`. */
  function IndexOf(s: string, pat: string, from: nat): (r: Option<nat>)
    ensures r.Some? ==> from <= r.value && OccursAt(s, pat, r.value)
    ensures r.Some? ==> forall k :: from <= k < r.value ==> !OccursAt(s, pat, k)
    ensures r.None? ==> forall k: nat :: from <= k ==> !OccursAt(s, pat, k)
    decreases |s| - from
  {
    if from + |pat| > |s| then None
    else if s[from .. from + |pat|] == pat then Some(from)
    else IndexOf(s, pat, from + 1)
  }

  /** An occurrence inside a prefix is an occurrence in the whole string. */
  lemma OccursInPrefix(s: string, n: nat, pat: string, k: nat)
    requires n <= |s| && OccursAt(s[..n], pat, k)
    ensures OccursAt(s, pat, k)
  {
    assert s[..n][k .. k + |pat|] == s[k .. k + |pat|];
  }

  /** `s.split(sep)` for a string separator. A non-empty separator cuts `s`
      at its occurrences, found left to right without overlap; the empty
      separator splits `s` into single characters. */
  function Split(s: string, sep: string): (pieces: seq<string>)
    ensures sep != [] ==> |pieces| >= 1
    ensures sep == [] ==> |pieces| == |s| && forall j :: 0 <= j < |s| ==> pieces[j] == [s[j]]
  {
    if sep == [] then SplitChars(s) else SplitOn(s, sep)
  }

  /** `s.split('')`: one piece per character. */
  function SplitChars(s: string): seq<string>
  {
    seq(|s|, j requires 0 <= j < |s| => [s[j]])
  }

  /** `s.split(sep)` for a non-empty separator. */
  function SplitOn(s: string, sep: string): (pieces: seq<string>)
    requires sep != []
    ensures |pieces| >= 1
    decreases |s|
  {
    match IndexOf(s, sep, 0)
    case None => [s]
    case Some(i) => [s[..i]] + SplitOn(s[i + |sep| ..], sep)
  }

  /** No piece of a split contains the separator. */
  lemma {:induction false} SplitPiecesAreFree(s: string, sep: string)
    requires sep != []
    ensures forall j :: 0 <= j < |Split(s, sep)| ==> FreeOf(Split(s, sep)[j], sep)
    decreases |s|
  {
    SplitUnfold(s, sep);
    var first := IndexOf(s, sep, 0);
    if first.Some? {
      var i := first.value;
      var tail := Split(s[i + |sep| ..], sep);
      BeforeFirstOccurrence(s, sep, i);
      SplitPiecesAreFree(s[i + |sep| ..], sep);
      assert Split(s, sep) == [s[..i]] + tail;
      forall j | 0 <= j < |Split(s, sep)| ensures FreeOf(Split(s, sep)[j], sep) {
        if j > 0 {
          assert Split(s, sep)[j] == tail[j - 1];
        }
      }
    }
  }

  /** A split yields a single piece exactly when the separator does not
      occur. */
  lemma SplitIsSingle(s: string, sep: string)
    requires sep != []
    ensures |Split(s, sep)| == 1 <==> FreeOf(s, sep)
  {
    SplitUnfold(s, sep);
    var first := IndexOf(s, sep, 0);
    if first.Some? {
      assert OccursAt(s, sep, first.value);
    }
  }

  /** `pieces.join(sep)`. */
  function Join(pieces: seq<string>, sep: string): string
  {
    if pieces == [] then ""
    else if |pieces| == 1 then pieces[0]
    else pieces[0] + sep + Join(pieces[1..], sep)
  }

  /** Joining the pieces with the separator rebuilds the split string. */
  lemma JoinSplit(s: string, sep: string)
    ensures Join(Split(s, sep), sep) == s
  {
    if sep == [] {
      JoinSplitChars(s);
    } else {
      JoinSplitSeparated(s, sep);
    }
  }

  lemma {:induction false} JoinSplitChars(s: string)
    ensures Join(Split(s, ""), "") == s
  {
    if |s| > 1 {
      var pieces := Split(s, "");
      assert pieces[1..] == Split(s[1..], "");
      JoinSplitChars(s[1..]);
      assert Join(pieces, "") == pieces[0] + Join(pieces[1..], "");
      assert s == [s[0]] + s[1..];
    }
  }

  lemma {:induction false} JoinSplitSeparated(s: string, sep: string)
    requires sep != []
    ensures Join(Split(s, sep), sep) == s
    decreases |s|
  {
    SplitUnfold(s, sep);
    var first := IndexOf(s, sep, 0);
    if first.Some? {
      var i := first.value;
      var rest := s[i + |sep| ..];
      var tail := Split(rest, sep);
      JoinSplitSeparated(rest, sep);
      JoinCons(s[..i], tail, sep);
      Reassemble(s, i, sep);
    }
  }

  /** Cutting `s` around an occurrence of `sep` at `i` loses nothing. */
  lemma Reassemble(s: string, i: nat, sep: string)
    requires OccursAt(s, sep, i)
    ensures s == s[..i] + sep + s[i + |sep| ..]
  {
  }

  lemma JoinCons(head: string, tail: seq<string>, sep: string)
    requires |tail| >= 1
    ensures Join([head] + tail, sep) == head + sep + Join(tail, sep)
  {
    assert ([head] + tail)[1..] == tail;
  }

  /** One step of `Split`: the text before the first occurrence, then the
      split of what follows it. */
  lemma {:induction false} SplitUnfold(s: string, sep: string)
    requires sep != []
    ensures IndexOf(s, sep, 0).None? ==> Split(s, sep) == [s]
    ensures IndexOf(s, sep, 0).Some? ==>
              Split(s, sep) == [s[..IndexOf(s, sep, 0).value]] + Split(s[IndexOf(s, sep, 0).value + |sep| ..], sep)
  {
  }

  /** The text before the first occurrence of a non-empty pattern does not
      contain it. */
  lemma BeforeFirstOccurrence(s: string, pat: string, i: nat)
    requires pat != [] && i <= |s|
    requires forall k :: 0 <= k < i ==> !OccursAt(s, pat, k)
    ensures FreeOf(s[..i], pat)
  {
    forall k | 0 <= k <= i ensures !OccursAt(s[..i], pat, k) {
      if OccursAt(s[..i], pat, k) {
        OccursInPrefix(s, i, pat, k);
      }
    }
  }

  /** `piece` is `t` up to the first occurrence of `sep`, or all of `t`
      when `sep` does not occur. */
  predicate RunsToNext(t: string, sep: string, piece: string)
  {
    match IndexOf(t, sep, 0)
    case None => piece == t
    case Some(i) => piece == t[..i]
  }

  /** The first piece of a split runs up to the first occurrence, or is the
      whole string. */
  lemma SplitFirst(t: string, sep: string)
    requires sep != []
    ensures RunsToNext(t, sep, Split(t, sep)[0])
  {
    SplitUnfold(t, sep);
  }

  /** Past a first occurrence at `i`, the second piece is the first piece of
      the split of what follows it. */
  lemma SplitSecond(s: string, sep: string, i: nat)
    requires sep != [] && IndexOf(s, sep, 0) == Some(i)
    ensures i + |sep| <= |s| && |Split(s, sep)| >= 2
    ensures Split(s, sep)[0] == s[..i] && Split(s, sep)[1] == Split(s[i + |sep| ..], sep)[0]
  {
    SplitUnfold(s, sep);
  }

  /** `const [a, b] = s.split(sep)` for a non-empty separator: the text
      before the first occurrence, and the text after it up to the next
      occurrence (or the end), or `None` (`undefined`) when the separator
      does not occur. */
  function FirstTwoPieces(s: string, sep: string): (ab: (string, Option<string>))
    requires sep != []
    ensures FreeOf(ab.0, sep)
    ensures ab.1.None? <==> FreeOf(s, sep)
    ensures ab.1.None? ==> ab.0 == s
    ensures ab.1.Some? ==> IndexOf(s, sep, 0) == Some(|ab.0|) && ab.0 == s[..|ab.0|]
    ensures ab.1.Some? ==> FreeOf(ab.1.value, sep)
    ensures ab.1.Some? ==> |ab.0| + |sep| <= |s| && RunsToNext(s[|ab.0| + |sep| ..], sep, ab.1.value)
  {
    var pieces := Split(s, sep);
    if IndexOf(s, sep, 0).None? then
      SplitWithout(s, sep);
      (pieces[0], None)
    else
      SplitWith(s, sep);
      SplitWithFree(s, sep);
      (pieces[0], Some(pieces[1]))
  }

  /** Without an occurrence, the split is the whole string. */
  lemma SplitWithout(s: string, sep: string)
    requires sep != [] && IndexOf(s, sep, 0).None?
    ensures FreeOf(s, sep) && Split(s, sep) == [s]
  {
    SplitUnfold(s, sep);
  }

  /** With an occurrence, the first piece runs up to the first one and the
      second piece from there up to the next one or the end. */
  lemma SplitWith(s: string, sep: string)
    requires sep != [] && IndexOf(s, sep, 0).Some?
    ensures |Split(s, sep)| >= 2
    ensures IndexOf(s, sep, 0) == Some(|Split(s, sep)[0]|) && Split(s, sep)[0] == s[..|Split(s, sep)[0]|]
    ensures |Split(s, sep)[0]| + |sep| <= |s|
    ensures RunsToNext(s[|Split(s, sep)[0]| + |sep| ..], sep, Split(s, sep)[1])
  {
    var i := IndexOf(s, sep, 0).value;
    var rest := s[i + |sep| ..];
    SplitSecond(s, sep, i);
    SplitFirst(rest, sep);
    RunsToNextOfEqual(s[|Split(s, sep)[0]| + |sep| ..], rest, sep, Split(s, sep)[1]);
  }

  /** With an occurrence, the string is not free of it, and neither of the
      first two pieces holds it. */
  lemma SplitWithFree(s: string, sep: string)
    requires sep != [] && IndexOf(s, sep, 0).Some?
    ensures !FreeOf(s, sep) && |Split(s, sep)| >= 2
    ensures FreeOf(Split(s, sep)[0], sep) && FreeOf(Split(s, sep)[1], sep)
  {
    var i := IndexOf(s, sep, 0).value;
    assert OccursAt(s, sep, i);
    SplitSecond(s, sep, i);
    BeforeFirstOccurrence(s, sep, i);
    SplitPiecesAreFree(s[i + |sep| ..], sep);
  }

  lemma RunsToNextOfEqual(t: string, u: string, sep: string, piece: string)
    requires t == u && RunsToNext(u, sep, piece)
    ensures RunsToNext(t, sep, piece)
  {
  }
}

// The string helpers of the command parser: `trim_left` from
// src/string_extensions.h and the splitting done by std::views::split.
module StringExtensions {

  /** Number of leading ' ' characters: the position `find_first_not_of(' ')`
      clamped to the length, as `std::min(.., size())` does with npos. */
  function LeadingSpaces(s: string): (k: nat)
    ensures k <= |s|
    ensures forall i :: 0 <= i < k ==> s[i] == ' '
    ensures k < |s| ==> s[k] != ' '
  {
    if |s| == 0 || s[0] != ' ' then 0 else 1 + LeadingSpaces(s[1..])
  }

  /** `trim_left`: drops the leading ' ' characters and nothing else. */
  function TrimLeft(s: string): (r: string)
    ensures |r| <= |s| && r == s[|s| - |r|..]
    ensures forall i :: 0 <= i < |s| - |r| ==> s[i] == ' '
    ensures r == [] || r[0] != ' '
  {
    s[LeadingSpaces(s)..]
  }

  /** Trimming twice is trimming once. */
  lemma TrimLeftIdempotent(s: string)
    ensures TrimLeft(TrimLeft(s)) == TrimLeft(s)
  {
    var r := TrimLeft(s);
    assert r == [] || r[0] != ' ';
    assert LeadingSpaces(r) == 0;
  }

  /** Empty or all-space input gives the empty view (npos is clamped to the size). */
  lemma TrimLeftAllSpaces(s: string)
    requires forall i :: 0 <= i < |s| ==> s[i] == ' '
    ensures TrimLeft(s) == []
  {
  }

  /** Only ' ' is removed: a string that starts with any other character,
      a tab or a newline included, is returned unchanged. */
  lemma TrimLeftKeepsOtherWhitespace(s: string)
    requires |s| > 0 && s[0] != ' '
    ensures TrimLeft(s) == s
  {
    assert LeadingSpaces(s) == 0;
  }

  // ---------------------------------------------------------------------
  // std::views::split(sep) over a character range (the C++23 semantics):
  // an empty range has no pieces; otherwise every separator ends a piece,
  // empty pieces are kept, and a trailing separator gives a final empty piece.

  /** Position of the first `c` at or after `from`, or |s| if there is none. */
  function FindFrom(s: string, c: char, from: nat): (j: nat)
    requires from <= |s|
    ensures from <= j <= |s|
    ensures j < |s| ==> s[j] == c
    ensures forall k :: from <= k < j ==> s[k] != c
    decreases |s| - from
  {
    if from == |s| || s[from] == c then from else FindFrom(s, c, from + 1)
  }

  function SplitFrom(s: string, c: char, from: nat): seq<string>
    requires from <= |s|
    decreases |s| - from
  {
    var j := FindFrom(s, c, from);
    if j == |s| then [s[from..]] else [s[from..j]] + SplitFrom(s, c, j + 1)
  }

  /** The pieces std::views::split(c) yields over `s`. */
  function Split(s: string, c: char): seq<string>
  {
    if s == [] then [] else SplitFrom(s, c, 0)
  }

  /** Pieces glued back together with the separator between them. */
  function Join(pieces: seq<string>, c: char): string
  {
    if |pieces| == 0 then []
    else if |pieces| == 1 then pieces[0]
    else pieces[0] + [c] + Join(pieces[1..], c)
  }

  predicate Free(s: string, c: char)
  {
    forall i :: 0 <= i < |s| ==> s[i] != c
  }

  lemma SplitFromProps(s: string, c: char, from: nat)
    requires from <= |s|
    ensures |SplitFrom(s, c, from)| >= 1
    ensures Join(SplitFrom(s, c, from), c) == s[from..]
    ensures forall k :: 0 <= k < |SplitFrom(s, c, from)| ==> Free(SplitFrom(s, c, from)[k], c)
  {
    SplitFromJoin(s, c, from);
    SplitFromFree(s, c, from);
  }

  lemma {:induction false} SplitFromJoin(s: string, c: char, from: nat)
    requires from <= |s|
    ensures |SplitFrom(s, c, from)| >= 1
    ensures Join(SplitFrom(s, c, from), c) == s[from..]
    decreases |s| - from
  {
    var j := FindFrom(s, c, from);
    if j < |s| {
      SplitFromJoin(s, c, j + 1);
      var rest := SplitFrom(s, c, j + 1);
      assert SplitFrom(s, c, from) == [s[from..j]] + rest;
      assert ([s[from..j]] + rest)[1..] == rest;
      assert s[from..] == s[from..j] + [c] + s[j + 1..];
    }
  }

  lemma {:induction false} SplitFromFree(s: string, c: char, from: nat)
    requires from <= |s|
    ensures forall k :: 0 <= k < |SplitFrom(s, c, from)| ==> Free(SplitFrom(s, c, from)[k], c)
    decreases |s| - from
  {
    var j := FindFrom(s, c, from);
    if j < |s| {
      SplitFromFree(s, c, j + 1);
      var rest := SplitFrom(s, c, j + 1);
      var all := [s[from..j]] + rest;
      assert SplitFrom(s, c, from) == all;
      assert Free(s[from..j], c);
      assert forall k :: 1 <= k < |all| ==> all[k] == rest[k - 1];
    } else {
      assert Free(s[from..], c);
    }
  }

  /** Splitting a non-empty string and joining the pieces gives the string back,
      and no piece contains the separator. */
  lemma SplitJoin(s: string, c: char)
    requires s != []
    ensures |Split(s, c)| >= 1
    ensures Join(Split(s, c), c) == s
    ensures forall k :: 0 <= k < |Split(s, c)| ==> Free(Split(s, c)[k], c)
  {
    SplitFromProps(s, c, 0);
    assert s[0..] == s;
  }

  lemma {:induction false} JoinSplitAt(s: string, c: char, from: nat, pieces: seq<string>)
    requires from <= |s| && |pieces| >= 1 && s[from..] == Join(pieces, c)
    requires forall k :: 0 <= k < |pieces| ==> Free(pieces[k], c)
    ensures SplitFrom(s, c, from) == pieces
    decreases |pieces|
  {
    var p0 := pieces[0];
    if |pieces| == 1 {
      assert s[from..] == p0;
      FindAbsent(s, c, from);
      assert SplitFrom(s, c, from) == [s[from..]];
      assert pieces == [p0];
    } else {
      var rest := Join(pieces[1..], c);
      var j := from + |p0|;
      assert s[from..] == p0 + [c] + rest;
      assert s[from..j] == p0 by {
        assert s[from..j] == s[from..][..|p0|];
      }
      assert s[j] == s[from..][|p0|];
      assert s[j + 1..] == rest by {
        assert s[j + 1..] == s[from..][|p0| + 1..];
      }
      FindFirst(s, c, from, j);
      SplitFromStep(s, c, from);
      JoinSplitAt(s, c, j + 1, pieces[1..]);
      assert SplitFrom(s, c, from) == [p0] + pieces[1..];
      assert [pieces[0]] + pieces[1..] == pieces;
    }
  }

  lemma SplitFromStep(s: string, c: char, from: nat)
    requires from <= |s| && FindFrom(s, c, from) < |s|
    ensures SplitFrom(s, c, from) == [s[from..FindFrom(s, c, from)]] + SplitFrom(s, c, FindFrom(s, c, from) + 1)
  {
  }

  lemma FindAbsent(s: string, c: char, from: nat)
    requires from <= |s|
    requires Free(s[from..], c)
    ensures FindFrom(s, c, from) == |s|
  {
  }

  lemma FindFirst(s: string, c: char, from: nat, j: nat)
    requires from <= j < |s| && s[j] == c
    requires Free(s[from..j], c)
    ensures FindFrom(s, c, from) == j
  {
  }

  /** The converse round trip: pieces free of the separator are recovered from
      their join, except a single empty piece, whose join is the empty range. */
  lemma JoinSplit(pieces: seq<string>, c: char)
    requires |pieces| >= 1 && !(|pieces| == 1 && pieces[0] == [])
    requires forall k :: 0 <= k < |pieces| ==> Free(pieces[k], c)
    ensures Split(Join(pieces, c), c) == pieces
  {
    var s := Join(pieces, c);
    assert s != [] by {
      if |pieces| > 1 {
        assert |s| == |pieces[0]| + 1 + |Join(pieces[1..], c)|;
      }
    }
    assert s[0..] == s;
    JoinSplitAt(s, c, 0, pieces);
  }

  /** Where each piece starts in the split string: after every earlier piece
      and its separator. */
  function PieceStart(pieces: seq<string>, k: nat): nat
    requires k <= |pieces|
  {
    if k == 0 then 0 else PieceStart(pieces, k - 1) + |pieces[k - 1]| + 1
  }

  lemma {:induction false} PieceStartAt(pieces: seq<string>, c: char, k: nat)
    requires k < |pieces|
    ensures PieceStart(pieces, k) + |pieces[k]| <= |Join(pieces, c)|
    ensures Join(pieces, c)[PieceStart(pieces, k)..PieceStart(pieces, k) + |pieces[k]|] == pieces[k]
  {
    var s := Join(pieces, c);
    if |pieces| == 1 {
      assert s[0..|pieces[0]|] == pieces[0];
    } else if k == 0 {
      var rest := [c] + Join(pieces[1..], c);
      assert s == pieces[0] + rest;
      assert s[0..|pieces[0]|] == pieces[0];
    } else {
      PieceStartAt(pieces[1..], c, k - 1);
      PieceStartShift(pieces, k);
      var tail := Join(pieces[1..], c);
      var head := pieces[0] + [c];
      var st := PieceStart(pieces[1..], k - 1);
      assert s == head + tail;
      assert pieces[1..][k - 1] == pieces[k];
      assert s[|head| + st..|head| + st + |pieces[k]|] == tail[st..st + |pieces[k]|];
    }
  }

  lemma {:induction false} PieceStartShift(pieces: seq<string>, k: nat)
    requires 1 <= k <= |pieces|
    ensures PieceStart(pieces, k) == |pieces[0]| + 1 + PieceStart(pieces[1..], k - 1)
  {
    if k > 1 {
      PieceStartShift(pieces, k - 1);
    }
  }

  /** The pieces of a string with the separator at exactly position `i`. */
  lemma SplitAtOne(s: string, c: char, i: nat)
    requires i < |s| && s[i] == c
    requires Free(s[..i], c) && Free(s[i + 1..], c)
    ensures Split(s, c) == [s[..i], s[i + 1..]]
  {
    var pieces := [s[..i], s[i + 1..]];
    assert pieces[1..] == [s[i + 1..]];
    assert s == s[..i] + [c] + s[i + 1..];
    JoinSplit(pieces, c);
  }

  /** The pieces of a string with the separator at exactly positions `i` and `j`. */
  lemma SplitAtTwo(s: string, c: char, i: nat, j: nat)
    requires i < j < |s| && s[i] == c && s[j] == c
    requires Free(s[..i], c) && Free(s[i + 1..j], c) && Free(s[j + 1..], c)
    ensures Split(s, c) == [s[..i], s[i + 1..j], s[j + 1..]]
  {
    var pieces := [s[..i], s[i + 1..j], s[j + 1..]];
    assert pieces[1..] == [s[i + 1..j], s[j + 1..]] && pieces[1..][1..] == [s[j + 1..]];
    assert Join(pieces[1..], c) == s[i + 1..j] + [c] + s[j + 1..];
    assert s == s[..i] + [c] + (s[i + 1..j] + [c] + s[j + 1..]);
    JoinSplit(pieces, c);
  }
}
